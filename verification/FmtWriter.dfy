/** A growing buffer, and integers laid out in it. */
module FmtWriter {
  import opened Powers
  import opened FmtDigits
  import opened FmtDecimal
  import opened FmtInt
  import opened FmtLayout
  import opened FmtShown

  // ---------- the writer ----------

  ghost predicate InPlace(all: string, was: string, front: string, k: nat, back: string, end: nat) {
    var n := |was|;
    && end == n + |front| + k && |all| == end + |back|
    && all[..n] == was && all[n..n + |front|] == front && all[end..] == back
  }

  class Writer {
    var buffer: array<char>

    constructor ()
      ensures buffer[..] == "" && fresh(buffer)
    {
      buffer := new char[0];
    }

    /** `grow_buffer`: room for `n` more characters; the position of the first. */
    method Grow(n: nat) returns (p: nat)
      modifies this
      ensures fresh(buffer) && p == |old(buffer[..])| && buffer.Length == p + n
      ensures buffer[..p] == old(buffer[..])
    {
      p := buffer.Length;
      ghost var was := buffer[..];
      var grown := new char[p + n](i requires 0 <= i reads this, buffer =>
        if i < buffer.Length then buffer[i] else ' ');
      buffer := grown;
      assert buffer[..p] == was;
    }

    /** Copies `s` to position `p`. */
    method Put(p: nat, s: string)
      requires p + |s| <= buffer.Length
      modifies buffer
      ensures forall i :: 0 <= i < buffer.Length ==>
        buffer[i] == if p <= i < p + |s| then s[i - p] else old(buffer[i])
    {
      forall i | 0 <= i < |s| {
        buffer[p + i] := s[i];
      }
    }

    /** Behind `was`, room for `k` digits stands between `front` and `back`; `end` is the position after it. */
    ghost predicate Prepared(was: string, front: string, k: nat, back: string, end: nat)
      reads this, buffer
    {
      InPlace(buffer[..], was, front, k, back, end)
    }

    /** A number as wide as its field, or wider. */
    method AlignTight(size: nat, prefix: string) returns (end: nat)
      requires |prefix| <= size
      modifies this
      ensures fresh(buffer) && Prepared(old(buffer[..]), prefix, size - |prefix|, "", end)
    {
      var p := Grow(size);
      Put(p, prefix);
      end := p + size;
    }

    method AlignLeft(size: nat, prefix: string, fill: string) returns (end: nat)
      requires |prefix| <= size
      modifies this
      ensures fresh(buffer) && Prepared(old(buffer[..]), prefix, size - |prefix|, fill, end)
    {
      var p := Grow(size + |fill|);
      Put(p, prefix);
      Put(p + size, fill);
      end := p + size;
    }

    method AlignRight(size: nat, prefix: string, fill: string) returns (end: nat)
      requires |prefix| <= size
      modifies this
      ensures fresh(buffer) && Prepared(old(buffer[..]), fill + prefix, size - |prefix|, "", end)
    {
      var p := Grow(size + |fill|);
      end := p + size + |fill|;
      Put(end - size, prefix);
      Put(p, fill);
    }

    method AlignNumeric(size: nat, prefix: string, fill: string) returns (end: nat)
      requires |prefix| <= size
      modifies this
      ensures fresh(buffer) && Prepared(old(buffer[..]), prefix + fill, size - |prefix|, "", end)
    {
      var p := Grow(size + |fill|);
      end := p + size + |fill|;
      Put(p, prefix);
      Put(p + |prefix|, fill);
    }

    /** With `fill_padding`: the smaller half of the fill goes to the left. */
    method AlignCenter(size: nat, prefix: string, left: string, right: string) returns (end: nat)
      requires |prefix| <= size
      modifies this
      ensures fresh(buffer) && Prepared(old(buffer[..]), left + prefix, size - |prefix|, right, end)
    {
      var p := Grow(|left| + size + |right|);
      Put(p, left);
      Put(p + |left| + size, right);
      Put(p + |left|, prefix);
      end := p + |left| + size;
    }

    /** `prepare_int_buffer` when the precision asks for no zeros */
    method PreparePlain(k: nat, spec: Spec, prefix: string) returns (end: nat)
      requires !ZerosAdded(k, spec)
      modifies this
      ensures fresh(buffer) && Prepared(old(buffer[..]), Before(prefix, k, spec), k, After(prefix, k, spec), end)
    {
      hide Prepared;
      var size := |prefix| + k;
      PlainParts(prefix, k, spec);
      hide Before, After;
      if spec.width <= size {
        end := AlignTight(size, prefix);
        return;
      }
      var pad := spec.width - size;
      match spec.align {
        case Left => end := AlignLeft(size, prefix, Repeat(spec.fill, pad));
        case Center => end := AlignCenter(size, prefix, Repeat(spec.fill, pad / 2), Repeat(spec.fill, pad - pad / 2));
        case Numeric => end := AlignNumeric(size, prefix, Repeat(spec.fill, pad));
        case _ => end := AlignRight(size, prefix, Repeat(spec.fill, pad));
      }
    }

    /** Appends fill characters behind a prepared number. */
    method FillAfter(fill: string, ghost was: string, ghost front: string, ghost k: nat, ghost end: nat)
      requires Prepared(was, front, k, "", end)
      modifies this
      ensures fresh(buffer) && Prepared(was, front, k, fill, end)
    {
      ghost var before := buffer[..];
      var p := Grow(|fill|);
      Put(p, fill);
      assert buffer[..p] == before;
      assert buffer[..|was|] == before[..|was|];
      assert buffer[|was|..|was| + |front|] == before[|was|..|was| + |front|];
    }

    method FillFirst(fill: string)
      modifies this
      ensures fresh(buffer) && buffer[..] == old(buffer[..]) + fill
    {
      var p := Grow(|fill|);
      Put(p, fill);
    }

    lemma FillIsFront(was: string, fill: string, front: string, k: nat, end: nat)
      requires Prepared(was + fill, front, k, "", end)
      ensures Prepared(was, fill + front, k, "", end)
    {
      var n := |was|;
      assert buffer[..n] == buffer[..n + |fill|][..n];
      assert buffer[n..n + |fill| + |front|] == buffer[..n + |fill|][n..] + buffer[n + |fill|..n + |fill| + |front|];
    }

    /** `prepare_int_buffer` */
    method PrepareIntBuffer(k: nat, spec: Spec, prefix: string) returns (end: nat)
      modifies this
      ensures fresh(buffer) && Prepared(old(buffer[..]), Before(prefix, k, spec), k, After(prefix, k, spec), end)
    {
      hide Prepared;
      if spec.precision <= k {
        end := PreparePlain(k, spec, prefix);
        return;
      }
      ghost var was := buffer[..];
      var shorter := Trimmed(prefix);
      var size := |shorter| + spec.precision;
      var sub := Spec(size, '0', Numeric, -1, NoSign, false, Dec);
      ZeroParts(prefix, k, spec, sub);
      hide Before, After, Trimmed;
      if size >= spec.width {
        end := PreparePlain(k, sub, shorter);
        return;
      }
      var fill := Repeat(spec.fill, spec.width - size);
      if spec.align != Left {
        FillFirst(fill);
      }
      end := PreparePlain(k, sub, shorter);
      if spec.align == Left {
        FillAfter(fill, was, Before(shorter, k, sub), k, end);
      } else {
        FillIsFront(was, fill, Before(shorter, k, sub), k, end);
      }
    }

    /** `write_unsigned_decimal`: the numeral behind room for a prefix, whose position is returned. */
    method WriteUnsignedDecimal(n: nat, t: MainType, room: nat) returns (p: nat)
      requires n < Modulus(t)
      modifies this
      ensures fresh(buffer) && p == |old(buffer[..])| && p + room <= buffer.Length
      ensures buffer[..p] == old(buffer[..]) && buffer[p + room..] == Numeral(n)
    {
      hide Modulus, Numeral, Digits, Wrote, Separated;
      var k := CountDecimal(n, t);
      PlainNumeral(n, 0);
      p := Grow(room + k);
      ghost var was := buffer[..];
      var start := FormatDecimal(buffer, p + room + k, n, "");
      WroteAll(was, buffer[..], start, p + room + k, Numeral(n));
      assert buffer[..] == was[..p + room] + Numeral(n);
      assert buffer[..p] == was[..p];
    }

    /** `write_decimal` */
    method WriteDecimal(value: int, t: MainType)
      requires Covers(t, value)
      modifies this
      ensures buffer[..] == old(buffer[..]) + Decimal(value)
    {
      hide AbsValue, Modulus, Numeral;
      AbsFits(value, t);
      if value < 0 {
        var p := WriteUnsignedDecimal(AbsValue(value, t), t, 1);
        ghost var room := buffer[..];
        buffer[p] := '-';
        SignFirst(room, p, Numeral(-value));
      } else {
        var p := WriteUnsignedDecimal(AbsValue(value, t), t, 0);
        assert buffer[..] == buffer[..p] + buffer[p..];
      }
    }

    // ---------- write_int ----------

    /** `do { *p-- = digits[n & mask]; } while ((n >>= shift) != 0)`, from `end` backwards */
    method PutInBase(end: nat, n: nat, base: nat, upper: bool)
      requires 2 <= base <= 16 && |InBase(n, base, upper)| <= end <= buffer.Length
      modifies buffer
      ensures Wrote(old(buffer[..]), buffer[..], end - |InBase(n, base, upper)|, end, InBase(n, base, upper))
    {
      hide Quotient, Remainder, InBase, BaseChar;
      var p, m: nat := end, n;
      ghost var goal, was := InBase(n, base, upper), buffer[..];
      while true
        invariant |InBase(m, base, upper)| <= p <= end && p - |InBase(m, base, upper)| == end - |goal|
        invariant InBase(m, base, upper) + buffer[p..end] == goal
        invariant buffer[..p] == was[..p] && buffer[end..] == was[end..]
        decreases m
      {
        InBaseStep(m, base, upper);
        ghost var done := buffer[p..end];
        p := p - 1;
        buffer[p] := BaseChar(Remainder(m, base), upper);
        assert buffer[p..end] == [BaseChar(Remainder(m, base), upper)] + done;
        if Quotient(m, base) == 0 { break; }
        m := Quotient(m, base);
      }
    }

    /** Puts the digits of `n` into the room prepared for them. */
    method PutDigits(end: nat, n: nat, form: Form)
      requires |DigitsOf(n, form)| <= end <= buffer.Length
      modifies buffer
      ensures Wrote(old(buffer[..]), buffer[..], end - |DigitsOf(n, form)|, end, DigitsOf(n, form))
    {
      hide Wrote, Numeral, InBase, Separated;
      match form {
        case Dec =>
          PlainNumeral(n, 0);
          var _ := FormatDecimal(buffer, end, n, "");
        case Hex(upper) => PutInBase(end, n, 16, upper);
        case Bin(upper) => PutInBase(end, n, 2, upper);
        case Oct => PutInBase(end, n, 8, false);
        case Grouping(sep) =>
          var _ := FormatDecimal(buffer, end, n, sep);
      }
    }

    /** `write_int` */
    method WriteInt(value: int, t: MainType, spec: Spec)
      requires Covers(t, value)
      modifies this
      ensures var digits := DigitsOf(Magnitude(value), spec.form);
        buffer[..] == old(buffer[..]) + Layout(PrefixOf(value < 0, spec), digits, spec)
      ensures SeparatorsOk(spec.form) ==>
        var n := |old(buffer[..])|;
        n <= buffer.Length && buffer[..n] == old(buffer[..]) && Shows(buffer[n..], value, spec)
      ensures spec.form == Dec && spec.width == 0 && spec.precision < 0 && spec.sign == NoSign ==>
        buffer[..] == old(buffer[..]) + Decimal(value)
    {
      hide SeparatorsOk, Modulus, Covers, Shows, Decimal, Layout, Before, After, DigitsOf, PrefixOf, AbsValue, InPlace,
        Wrote;
      Appends(buffer[..], value, spec);
      AbsFits(value, t);
      var abs, prefix := AbsValue(value, t), PrefixOf(value < 0, spec);
      var k := CountFor(abs, t, spec.form);
      ghost var was, digits := buffer[..], DigitsOf(abs, spec.form);
      var end := PrepareIntBuffer(k, spec, prefix);
      ghost var room := buffer[..];
      RoomFor(room, was, Before(prefix, k, spec), k, After(prefix, k, spec), end);
      PutDigits(end, abs, spec.form);
      Completed(room, buffer[..], was, Before(prefix, k, spec), digits, After(prefix, k, spec), end);
      LayoutIs(prefix, digits, spec);
    }
  }

  lemma AbsFits(value: int, t: MainType)
    requires Covers(t, value)
    ensures AbsValue(value, t) == Magnitude(value) < Modulus(t)
  {
    AbsValueExact(value, t);
  }

  lemma SignFirst(room: string, p: nat, digits: string)
    requires p < |room| && room[p + 1..] == digits
    ensures room[p := '-'] == room[..p] + (['-'] + digits)
  {
  }

  /** What the text is that a call appends. */
  lemma Appends(was: string, value: int, spec: Spec)
    ensures var text := Layout(PrefixOf(value < 0, spec), DigitsOf(Magnitude(value), spec.form), spec);
      && (was + text)[..|was|] == was && (was + text)[|was|..] == text
      && (SeparatorsOk(spec.form) ==> Shows(text, value, spec))
      && (spec.form == Dec && spec.width == 0 && spec.precision < 0 && spec.sign == NoSign ==> text == Decimal(value))
  {
    hide Shows, Decimal, Layout, PrefixOf, DigitsOf, SeparatorsOk;
    if SeparatorsOk(spec.form) {
      TextShows(value, spec);
    }
    if spec.form == Dec && spec.width == 0 && spec.precision < 0 && spec.sign == NoSign {
      PlainText(value, spec);
    }
  }

  lemma WroteAll(was: string, now: string, p: nat, end: nat, s: string)
    requires Wrote(was, now, p, end, s) && end == |was|
    ensures |now| == |was| && p <= end && now == was[..p] + s
  {
    assert now == now[..p] + now[p..end] + now[end..];
  }

  lemma LayoutIs(prefix: string, digits: string, spec: Spec)
    ensures Layout(prefix, digits, spec) == Before(prefix, |digits|, spec) + digits + After(prefix, |digits|, spec)
  {
  }

  lemma RoomFor(room: string, was: string, front: string, k: nat, back: string, end: nat)
    requires InPlace(room, was, front, k, back, end)
    ensures k <= end <= |room|
  {
  }

  lemma Completed(room: string, all: string, was: string, front: string, digits: string, back: string, end: nat)
    requires InPlace(room, was, front, |digits|, back, end)
    requires Wrote(room, all, end - |digits|, end, digits)
    ensures all == was + (front + digits + back)
  {
    var n, p := |was|, end - |digits|;
    assert room[..p] == room[..n] + room[n..p];
    assert all == all[..p] + all[p..end] + all[end..];
  }

  lemma PlainParts(prefix: string, k: nat, spec: Spec)
    requires !ZerosAdded(k, spec)
    ensures var pad := spec.width - |prefix| - k;
      if pad <= 0 then Before(prefix, k, spec) == prefix && After(prefix, k, spec) == ""
      else match spec.align
        case Left => Before(prefix, k, spec) == prefix && After(prefix, k, spec) == Repeat(spec.fill, pad)
        case Center =>
          && Before(prefix, k, spec) == Repeat(spec.fill, pad / 2) + prefix
          && After(prefix, k, spec) == Repeat(spec.fill, pad - pad / 2)
        case Numeric => Before(prefix, k, spec) == prefix + Repeat(spec.fill, pad) && After(prefix, k, spec) == ""
        case _ => Before(prefix, k, spec) == Repeat(spec.fill, pad) + prefix && After(prefix, k, spec) == ""
  {
  }

  /** Zeros are laid out as a numeric alignment with '0' as fill. */
  lemma ZeroParts(prefix: string, k: nat, spec: Spec, sub: Spec)
    requires ZerosAdded(k, spec) && sub.align == Numeric && sub.fill == '0' && sub.precision < 0
    requires sub.width == |Trimmed(prefix)| + spec.precision
    ensures !ZerosAdded(k, sub) && After(Trimmed(prefix), k, sub) == ""
    ensures var pad, front := spec.width - sub.width, Before(Trimmed(prefix), k, sub);
      if pad <= 0 then Before(prefix, k, spec) == front && After(prefix, k, spec) == ""
      else if spec.align == Left then
        Before(prefix, k, spec) == front && After(prefix, k, spec) == Repeat(spec.fill, pad)
      else Before(prefix, k, spec) == Repeat(spec.fill, pad) + front && After(prefix, k, spec) == ""
  {
  }

  // ---------- digit counts ----------

  /** How many characters `write_int` makes room for. */
  method CountFor(n: nat, t: MainType, form: Form) returns (k: nat)
    requires n < Modulus(t)
    ensures k == |DigitsOf(n, form)|
  {
    match form {
      case Dec => k := CountDecimal(n, t);
      case Hex(upper) => k := CountInBase(n, 16, upper);
      case Bin(upper) => k := CountInBase(n, 2, upper);
      case Oct => k := CountInBase(n, 8, false);
      case Grouping(sep) =>
        var digits := CountDecimal(n, t);
        k := digits + |sep| * ((digits - 1) / 3);
        SeparatedIsGrouped(n, sep);
        GroupedLength(Numeral(n), sep);
    }
  }

  /** `count_digits`, in the version for the type */
  method CountDecimal(n: nat, t: MainType) returns (k: nat)
    requires n < Modulus(t)
    ensures k == Digits(n)
  {
    WidestTwos();
    hide Twos, Bits, OrOne, Estimate, Digits;
    if t == U32 {
      CountDigitsExact(n, 32);
      k := CountDigits(n, POWERS_OF_10_32);
    } else {
      CountDigitsExact(n, 64);
      k := CountDigits(n, POWERS_OF_10_64);
    }
  }

  /** `do { ++num_digits; } while ((n >>= shift) != 0)` */
  method CountInBase(n: nat, base: nat, upper: bool) returns (k: nat)
    requires 2 <= base <= 16
    ensures k == |InBase(n, base, upper)|
  {
    hide Quotient, Remainder;
    var m: nat := n;
    k := 0;
    while true
      invariant k + |InBase(m, base, upper)| == |InBase(n, base, upper)|
      decreases m
    {
      k := k + 1;
      if Quotient(m, base) == 0 { break; }
      m := Quotient(m, base);
    }
  }
}
