/**
 * What the version lock of a node does to a leaf that it is called on. A leaf split locks and unlocks the tagged
 * leaf as if it were a node: twice 2 is added to the 64-bit number where a node has its version, and in a leaf
 * that number lies in the key bytes.
 */
module LeafLock {
  import opened Bytes
  import opened Codec
  import opened Powers

  /** Where a node has its version, seen from the key of a leaf: offset 24 and the tag, less offset 12 of the key. */
  const LOCK_AT: nat := 13

  const LOCK_BYTES: nat := 8

  /** Adds `c` to the number in the `n` bytes from `i` on, the low byte first; a carry out of the top byte is lost. */
  function AddAt(s: seq<Byte>, i: nat, n: nat, c: nat): (r: seq<Byte>)
    ensures |r| == |s|
    decreases n
  {
    if n == 0 || i >= |s| then s
    else AddAt(s[i := (s[i] + c) % 256], i + 1, n - 1, (s[i] + c) / 256)
  }

  /** `compare_exchange_strong(v, v + 2)` on the version that was just loaded, and `fetch_add(2)` */
  function Locked(s: seq<Byte>): (r: seq<Byte>)
    ensures |r| == |s|
  {
    AddAt(s, LOCK_AT, LOCK_BYTES, 2)
  }

  /** The key bytes after a split: locked and unlocked. */
  function Touched(s: seq<Byte>): (r: seq<Byte>)
    ensures |r| == |s|
  {
    Locked(Locked(s))
  }

  lemma {:induction false} AddKeeps(s: seq<Byte>, i: nat, n: nat, c: nat, j: nat)
    requires j < |s| && (j < i || i + n <= j || c == 0)
    ensures AddAt(s, i, n, c)[j] == s[j]
    decreases n
  {
    if n > 0 && i < |s| {
      AddKeeps(s[i := (s[i] + c) % 256], i + 1, n - 1, (s[i] + c) / 256, j);
    }
  }

  /** The low bytes of the sum depend on the low bytes only. */
  lemma {:induction false} AddFront(s: seq<Byte>, i: nat, n: nat, c: nat, m: nat)
    requires m <= |s|
    ensures AddAt(s, i, n, c)[..m] == AddAt(s[..m], i, n, c)
    decreases n
  {
    if n > 0 && i < |s| {
      var t := s[i := (s[i] + c) % 256];
      AddFront(t, i + 1, n - 1, (s[i] + c) / 256, m);
      if i < m {
        assert t[..m] == s[..m][i := (s[..m][i] + c) % 256];
      } else {
        assert t[..m] == s[..m];
        AddBeyond(s[..m], i + 1, n - 1, (s[i] + c) / 256);
      }
    }
  }

  lemma AddBeyond(s: seq<Byte>, i: nat, n: nat, c: nat)
    requires |s| <= i
    ensures AddAt(s, i, n, c) == s
  {
  }

  lemma {:induction false} AddCarries(s: seq<Byte>, i: nat, n: nat, c: nat) returns (q: nat)
    requires i + n <= |s|
    ensures Number(s[i..i + n]) + c == Number(AddAt(s, i, n, c)[i..i + n]) + q * Power(n)
    ensures Number(AddAt(s, i, n, c)[i..i + n]) < Power(n)
    decreases n
  {
    if n == 0 {
      q := c;
    } else {
      hide Number, Power;
      var low, carry := (s[i] + c) % 256, (s[i] + c) / 256;
      var t := s[i := low];
      var r := AddAt(t, i + 1, n - 1, carry);
      q := AddCarries(t, i + 1, n - 1, carry);
      AddKeeps(t, i + 1, n - 1, carry, i);
      NumberSplit(s, i, n);
      NumberSplit(r, i, n);
      assert t[i + 1..i + n] == s[i + 1..i + n];
      CarryUp(q, n);
    }
  }

  /** The low byte and the number above it. */
  lemma NumberSplit(s: seq<Byte>, i: nat, n: nat)
    requires 0 < n && i + n <= |s|
    ensures Number(s[i..i + n]) == s[i] + 256 * Number(s[i + 1..i + n])
    ensures i + 1 + (n - 1) == i + n
  {
    assert s[i..i + n][1..] == s[i + 1..i + n];
  }

  lemma CarryUp(q: nat, n: nat)
    requires 0 < n
    ensures q * Power(n) == 256 * (q * Power(n - 1)) && Power(n) == 256 * Power(n - 1)
  {
    var p := Power(n - 1);
    assert q * (256 * p) == 256 * (q * p);
  }

  /** It is an addition modulo a power of 256, to these bytes and no others. */
  lemma AddNumber(s: seq<Byte>, i: nat, n: nat, c: nat)
    requires i + n <= |s|
    ensures Power(n) > 0 && Number(AddAt(s, i, n, c)[i..i + n]) == (Number(s[i..i + n]) + c) % Power(n)
    ensures forall j :: 0 <= j < |s| && !(i <= j < i + n) ==> AddAt(s, i, n, c)[j] == s[j]
  {
    forall j | 0 <= j < |s| && !(i <= j < i + n)
      ensures AddAt(s, i, n, c)[j] == s[j]
    {
      AddKeeps(s, i, n, c, j);
    }
    hide AddAt, Number, Power;
    PowerPositive(n);
    var q := AddCarries(s, i, n, c);
    Residue(Number(AddAt(s, i, n, c)[i..i + n]), q, Power(n));
  }

  lemma Residue(r: nat, q: nat, d: nat)
    requires r < d
    ensures (r + q * d) % d == r
  {
    var n := r + q * d;
    QuotientIs(n, d, q);
    assert n == d * (n / d) + n % d;
  }

  // ---------- what is left of a leaf ----------

  lemma LockedStep(s: seq<Byte>) returns (sum: nat)
    requires LOCK_AT < |s|
    ensures sum == s[LOCK_AT] as int + 2
    ensures Locked(s) == AddAt(s[LOCK_AT := sum % 256], LOCK_AT + 1, LOCK_BYTES - 1, sum / 256)
  {
    sum := s[LOCK_AT] as int + 2;
  }

  /** The byte at the lock goes up by two each time. */
  lemma LockedByte(s: seq<Byte>)
    requires LOCK_AT < |s|
    ensures Locked(s)[LOCK_AT] == (s[LOCK_AT] as int + 2) % 256
  {
    hide Locked, AddAt;
    var sum := LockedStep(s);
    AddKeeps(s[LOCK_AT := sum % 256], LOCK_AT + 1, LOCK_BYTES - 1, sum / 256, LOCK_AT);
  }

  lemma TouchedByte(s: seq<Byte>)
    requires LOCK_AT < |s|
    ensures Touched(s)[LOCK_AT] == (s[LOCK_AT] as int + 4) % 256 != s[LOCK_AT]
  {
    hide Locked;
    LockedByte(s);
    LockedByte(Locked(s));
  }

  lemma LockedKeeps(s: seq<Byte>, j: nat)
    requires j < |s| && (j < LOCK_AT || LOCK_AT + LOCK_BYTES <= j)
    ensures Locked(s)[j] == s[j] == Touched(s)[j]
  {
    AddKeeps(s, LOCK_AT, LOCK_BYTES, 2, j);
    AddKeeps(Locked(s), LOCK_AT, LOCK_BYTES, 2, j);
  }

  lemma TouchedFront(s: seq<Byte>, m: nat)
    requires m <= |s|
    ensures Locked(s)[..m] == Locked(s[..m]) && Touched(s)[..m] == Touched(s[..m])
  {
    AddFront(s, LOCK_AT, LOCK_BYTES, 2, m);
    AddFront(Locked(s), LOCK_AT, LOCK_BYTES, 2, m);
  }

  /** A string is left alone by a split exactly if it ends before the lock. */
  lemma TouchedExact(key: Key)
    ensures |key| <= LOCK_AT ==> Locked(key) == key && Touched(key) == key
    ensures Touched(key) == key <==> |key| <= LOCK_AT
  {
    if |key| <= LOCK_AT {
      AddBeyond(key, LOCK_AT, LOCK_BYTES, 2);
    } else {
      TouchedByte(key);
    }
  }

  lemma LockedNumber(s: seq<Byte>)
    requires 21 <= |s|
    ensures Number(Locked(s)[13..21]) == (Number(s[13..21]) + 2) % 0x1_0000_0000_0000_0000
  {
    WordSize();
    AddNumber(s, 13, 8, 2);
  }

  lemma TouchedElsewhere(s: seq<Byte>)
    requires 21 <= |s|
    ensures Touched(s)[..13] == s[..13] && Touched(s)[21..] == s[21..]
  {
    hide Touched, Locked;
    forall j | 0 <= j < |s| && (j < 13 || 21 <= j)
      ensures Touched(s)[j] == s[j]
    {
      LockedKeeps(s, j);
    }
  }

  /** The eight bytes from number 13 on grow by four as a number, and no other byte changes. */
  lemma TouchedNumber(s: seq<Byte>)
    requires 21 <= |s|
    ensures Number(Touched(s)[13..21]) == (Number(s[13..21]) + 4) % 0x1_0000_0000_0000_0000
    ensures Touched(s)[..13] == s[..13] && Touched(s)[21..] == s[21..]
  {
    hide Locked, Number;
    LockedNumber(s);
    LockedNumber(Locked(s));
    TwiceTwo(Number(s[13..21]));
    TouchedElsewhere(s);
  }

  lemma WordSize()
    ensures Power(8) == 0x1_0000_0000_0000_0000
  {
    assert Power(4) == 0x1_0000_0000;
  }

  lemma TwiceTwo(n: nat)
    ensures var d := 0x1_0000_0000_0000_0000; ((n + 2) % d + 2) % d == (n + 4) % d
  {
  }

  /** The leaf still spells its key after a split exactly if the key has at most thirteen bytes. */
  lemma KeySurvives(key: Key, rest: seq<Byte>)
    ensures Touched(key + rest)[..|key|] == key <==> |key| <= 13
  {
    assert (key + rest)[..|key|] == key;
    TouchedFront(key + rest, |key|);
    TouchedExact(key);
  }

  /** The byte behind the key is left as it was exactly if the key does not end at the lock. */
  lemma BehindSurvives(key: Key, rest: seq<Byte>)
    requires IsKey(key) && rest != []
    ensures Touched(key + rest)[|key|] == rest[0] <==> |key| != 13
    ensures |key| == 13 ==> Touched(key + rest)[|key|] == (rest[0] as int + 4) % 256
  {
    hide Locked, Touched;
    var s := key + rest;
    assert s[|key|] == rest[0];
    if |key| == LOCK_AT {
      TouchedByte(s);
    } else if |key| < LOCK_AT {
      LockedKeeps(s, |key|);
    } else {
      assert s[LOCK_AT] == key[LOCK_AT];
      NeverCarries(s, |key|);
    }
  }

  /** Seven-bit bytes leave room for both additions. */
  lemma NeverCarries(s: seq<Byte>, j: nat)
    requires LOCK_AT < j < |s| && s[LOCK_AT] <= 127
    ensures Touched(s)[j] == s[j]
  {
    hide Locked;
    LockedByte(s);
    NoCarry(s, j);
    NoCarry(Locked(s), j);
  }

  /** Without a carry only one byte changes. */
  lemma NoCarry(s: seq<Byte>, j: nat)
    requires LOCK_AT < j < |s| && s[LOCK_AT] < 254
    ensures Locked(s)[j] == s[j]
  {
hide Locked, AddAt;
    var sum := LockedStep(s);
    AddKeeps(s[LOCK_AT := sum], LOCK_AT + 1, LOCK_BYTES - 1, 0, j);
  }
}
