/** The key field of a leaf, of a fixed size and without terminator, and what reading it as a C string gives. */
module LeafCopy {
  import opened Bytes
  import opened LeafLock

  /** The size of the key field. */
  const FIELD: nat := 20

  type Field = s: seq<Byte> | |s| == FIELD witness seq(FIELD, _ => 0)

  /**
   * The key bytes of a leaf in memory. A leaf is allocated with room for the key field and once more for
   * the key; the key is copied to the front, and `rest` is what the memory behind it happens to hold.
   */
  datatype LeafBytes = LeafBytes(key: Key, rest: Field)

  /** The key field in a copy of the leaf: the key cut off after the size of the field, or filled up by the rest. */
  function FieldOf(key: Key, rest: Field): Field {
    (key + rest)[..FIELD]
  }

  /** What a split leaves of the key bytes of a leaf, if its lock falls into them. */
  function Split(leaf: LeafBytes): LeafBytes {
    var bytes := Touched(leaf.key + leaf.rest);
    LeafBytes(bytes[..|leaf.key|], bytes[|leaf.key|..])
  }

  /** What a split leaves of the bytes behind a key. */
  function RestAfter(key: Key, rest: Field): Field {
    Touched(key + rest)[|key|..]
  }

  /** A leaf keeps its key exactly if that has at most thirteen bytes. */
  lemma SplitKeeps(key: Key, rest: Field)
    ensures Split(LeafBytes(key, rest)) == LeafBytes(key, RestAfter(key, rest)) <==> |key| <= LOCK_AT
  {
    hide Touched;
    KeySurvives(key, rest);
  }

  /** The byte behind the key changes exactly if the key has thirteen bytes. */
  lemma BehindAfter(key: Key, rest: Field)
    requires IsKey(key)
    ensures RestAfter(key, rest)[0] == rest[0] <==> |key| != LOCK_AT
    ensures |key| == LOCK_AT ==> RestAfter(key, rest)[0] == (rest[0] as int + 4) % 256
  {
    hide Touched;
    BehindSurvives(key, rest);
  }

  /** The field starts with the key, or with as much of the key as the field has room for. */
  ghost predicate Starts(f: Field, key: Key) {
    Same(f, key, Min(|key|, FIELD))
  }

  lemma FieldStarts(key: Key, rest: Field)
    ensures Starts(FieldOf(key, rest), key)
    ensures |key| < FIELD ==> FieldOf(key, rest)[|key|] == rest[0]
  {
  }

  /** The bytes before the first 0, which is what `strlen` and `strcpy` see of a buffer. */
  function CString(s: seq<Byte>): (r: Key)
    ensures |r| <= |s| && r == s[..|r|] && 0 !in r && (|r| < |s| ==> s[|r|] == 0)
  {
    if s == [] || s[0] == 0 then [] else [s[0]] + CString(s[1..])
  }

  /** `strcpy` of a field into a zeroed one; without a 0 in the source nothing terminates the copy. */
  function Copied(f: Field): Field {
    var s := CString(f);
    s + seq(FIELD - |s|, _ => 0)
  }

  /** The contract of `CString` leaves one string only. */
  lemma CStringIs(s: seq<Byte>, r: Key)
    requires |r| <= |s| && r == s[..|r|] && 0 !in r && (|r| < |s| ==> s[|r|] == 0)
    ensures CString(s) == r
  {
    var c := CString(s);
    assert forall i :: 0 <= i < |r| ==> s[i] == r[i] && r[i] != 0;
    assert forall i :: 0 <= i < |c| ==> s[i] == c[i] && c[i] != 0;
  }

  /** A read that may run on past the field sees the same string in the copy as in the source. */
  lemma CopiedReads(f: Field, beyond: seq<Byte>)
    ensures CString(Copied(f) + beyond) == CString(f + beyond)
  {
    var s, r := CString(f), CString(f + beyond);
    if |s| == FIELD {
      assert Copied(f) == f;
    } else {
      CStringIs(f + beyond, s);
      CStringIs(Copied(f) + beyond, s);
    }
  }

  /** The field of a shorter key ends the key only if the memory happened to hold a 0 there. */
  predicate Clean(key: Key, f: Field) {
    |key| < FIELD && f[|key|] == 0
  }

  /** The field of a shorter key reads as the key exactly if that byte is 0, and always as an extension of the key. */
  lemma ShortReads(key: Key, f: Field, beyond: seq<Byte>)
    requires IsKey(key) && |key| < FIELD && Starts(f, key)
    ensures CString(f + beyond) == key <==> f[|key|] == 0
    ensures Same(key, CString(f + beyond), |key|)
  {
    var s := f + beyond;
    var r := CString(s);
    assert s[..|key|] == key && s[|key|] == f[|key|];
    assert forall i :: 0 <= i < |key| ==> s[i] == key[i] && key[i] != 0;
    if f[|key|] == 0 {
      CStringIs(s, key);
    }
  }

  /** The field of any other key is its first bytes, and the read goes on past the field. */
  lemma LongReads(key: Key, f: Field, beyond: seq<Byte>)
    requires IsKey(key) && |key| >= FIELD && Starts(f, key)
    ensures CString(f + beyond) == key[..FIELD] + CString(beyond)
  {
    var s, r := f + beyond, key[..FIELD] + CString(beyond);
    assert f == key[..FIELD];
    assert r == s[..|r|] && (|r| < |s| ==> s[|r|] == beyond[|r| - FIELD]);
    CStringIs(s, r);
  }

  // ---------- a list of fields ----------

  /** The bytes of a list of fields in memory, one right after the other. */
  function Flat(fs: seq<Field>): seq<Byte> {
    if fs == [] then [] else fs[0] + Flat(fs[1..])
  }

  function CopiedAll(fs: seq<Field>): (r: seq<Field>)
    ensures |r| == |fs| && forall j :: 0 <= j < |r| ==> r[j] == Copied(fs[j])
  {
    if fs == [] then [] else [Copied(fs[0])] + CopiedAll(fs[1..])
  }

  /** The string at the front of a list; an unterminated field runs on into the next one, and the last into `tail`. */
  function ReadFrom(fs: seq<Field>, tail: seq<Byte>): Key {
    CString(Flat(fs) + tail)
  }

  /** Copying the fields does not change what is read, although fields without a 0 run into copies. */
  lemma {:induction false} ListReads(fs: seq<Field>, tail: seq<Byte>)
    ensures ReadFrom(CopiedAll(fs), tail) == ReadFrom(fs, tail)
  {
    hide CString, Copied;
    if fs != [] {
      var f, rest := fs[0], fs[1..];
      ListReads(rest, tail);
      assert CopiedAll(fs)[1..] == CopiedAll(rest);
      assert Flat(fs) + tail == f + (Flat(rest) + tail);
      assert Flat(CopiedAll(fs)) + tail == Copied(f) + (Flat(CopiedAll(rest)) + tail);
      CopiedReads(f, Flat(CopiedAll(rest)) + tail);
      ReadsOn(f, Flat(rest) + tail, Flat(CopiedAll(rest)) + tail);
    }
  }

  /** Only what is read of the bytes past a field matters. */
  lemma ReadsOn(f: Field, a: seq<Byte>, b: seq<Byte>)
    requires CString(a) == CString(b)
    ensures CString(f + a) == CString(f + b)
  {
    Continues(f, a);
    Continues(f, b);
  }

  lemma Continues(f: Field, a: seq<Byte>)
    ensures CString(f + a) == if 0 in f then CString(f) else f + CString(a)
  {
    var r := if 0 in f then CString(f) else f + CString(a);
    if 0 in f {
      assert |CString(f)| < |f|;
    } else {
      assert r == (f + a)[..|r|] && (|r| < |f + a| ==> (f + a)[|r|] == a[|r| - FIELD]);
    }
    CStringIs(f + a, r);
  }
}
