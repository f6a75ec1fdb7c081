/** The double-ended buffer of libhttp/textint.c: text grows up, 4-byte integers grow down, in one byte array. */
module TextInts {
  import opened Chars

  type Int32 = i: int | -0x8000_0000 <= i < 0x8000_0000

  /** The abstract buffer: two independent sequences and the bytes they share. */
  datatype Text = Text(chars: seq<Char>, ints: seq<int>, size: nat) {
    predicate Fits() { |chars| + 4 * |ints| <= size }
    predicate CharFits() { |chars| + 4 * |ints| < size }
    predicate IntFits() { |chars| + 4 * |ints| + 4 < size }
  }

  /** The four bytes of a little-endian two's-complement integer. */
  function Pack(i: Int32): (r: (Char, Char, Char, Char))
  {
    var u := if i < 0 then i + 0x1_0000_0000 else i;
    var (u1, u2, u3) := (u / 0x100, u / 0x100 / 0x100, u / 0x100 / 0x100 / 0x100);
    (ToChar(u % 0x100), ToChar(u1 % 0x100), ToChar(u2 % 0x100), ToChar(u3))
  }

  function Unpack(b0: Char, b1: Char, b2: Char, b3: Char): (i: Int32)
  {
    var u := Byte(b0) + 0x100 * Byte(b1) + 0x1_0000 * Byte(b2) + 0x100_0000 * Byte(b3);
    if u < 0x8000_0000 then u else u - 0x1_0000_0000
  }

  lemma UnpackPack(i: Int32)
    ensures var (b0, b1, b2, b3) := Pack(i); Unpack(b0, b1, b2, b3) == i
  {
    hide ToChar, Unpack;
    var u := if i < 0 then i + 0x1_0000_0000 else i;
    var u1 := u / 0x100;
    var u2 := u1 / 0x100;
    BytesKept(u % 0x100, u1 % 0x100, u2 % 0x100, u2 / 0x100);
  }

  lemma ByteKept(b: int)
    requires 0 <= b < 256
    ensures Byte(ToChar(b)) == b
  {
  }

  lemma BytesKept(r0: int, r1: int, r2: int, r3: int)
    requires 0 <= r0 < 256 && 0 <= r1 < 256 && 0 <= r2 < 256 && 0 <= r3 < 256
    ensures var u := r0 + 0x100 * r1 + 0x1_0000 * r2 + 0x100_0000 * r3;
            Unpack(ToChar(r0), ToChar(r1), ToChar(r2), ToChar(r3)) == if u < 0x8000_0000 then u else u - 0x1_0000_0000
  {
    hide ToChar, Byte;
    ByteKept(r0);
    ByteKept(r1);
    ByteKept(r2);
    ByteKept(r3);
  }

  /** Word `k` of the bytes `d`, as `((int*)data)[k]`. */
  function Word(d: seq<Char>, k: nat): Int32
    requires 4 * k + 4 <= |d|
  {
    Unpack(d[4 * k], d[4 * k + 1], d[4 * k + 2], d[4 * k + 3])
  }

  /** The integers stored in words [lo, |d| / 4), the topmost first. */
  function Words(d: seq<Char>, lo: nat): (r: seq<Int32>)
    requires |d| % 4 == 0 && 4 * lo <= |d|
    ensures |r| == |d| / 4 - lo
    ensures forall j :: 0 <= j < |r| ==> r[j] == Word(d, |d| / 4 - 1 - j)
  {
    seq<Int32>(|d| / 4 - lo, j requires 0 <= j < |d| / 4 - lo => Word(d, |d| / 4 - 1 - j))
  }

  class TextInt {
    var text: nat
    var ints: nat
    const data: array<Char>

    /** The client supplies a buffer that ends on an integer boundary. */
    ghost predicate Valid()
      reads this
    {
      && 4 <= data.Length < 0x8000_0000 && data.Length % 4 == 0
      && text <= ints <= data.Length && ints % 4 == 0
      && 0 < ints
    }

    ghost function Value(): (v: Text)
      requires Valid()
      reads this, data
      ensures v.Fits() && |v.chars| == text && 4 * |v.ints| == data.Length - ints
    {
      Text(data[..text], Words(data[..], ints / 4), data.Length)
    }

    constructor (size: nat)
      requires 4 <= size < 0x8000_0000 && size % 4 == 0
      ensures Valid() && fresh(data) && Value() == Text([], [], size)
    {
      data := new Char[size];
      text, ints := 0, size;
    }

    method Clear()
      requires Valid()
      modifies this
      ensures Valid() && Value() == Text([], [], data.Length)
    {
      text, ints := 0, data.Length;
    }

    method PutC(c: Char) returns (r: int)
      requires Valid()
      modifies this, data
      ensures Valid()
      ensures r == if old(Value()).CharFits() then 1 else 0
      ensures Value() == if r == 1 then old(Value()).(chars := old(Value()).chars + [c]) else old(Value())
    {
      var lo, hi := text, ints;
      if lo >= hi {
        return 0;
      }
      WordsKept(data[..], data[..][lo := c], ints / 4);
      data[lo] := c;
      text := text + 1;
      return 1;
    }

    /** `((int*)data)[k] = i`. */
    method Store(k: nat, i: Int32)
      requires 4 * k + 4 <= data.Length
      modifies data
      ensures Word(data[..], k) == i
      ensures forall j :: 0 <= j < data.Length && !(4 * k <= j < 4 * k + 4) ==> data[j] == old(data[j])
    {
      hide Pack, Unpack;
      var (b0, b1, b2, b3) := Pack(i);
      UnpackPack(i);
      data[4 * k], data[4 * k + 1], data[4 * k + 2], data[4 * k + 3] := b0, b1, b2, b3;
    }

    /** Stores an integer when that leaves room for another character. The subtraction never wraps. */
    method PutI(i: Int32) returns (r: int)
      requires Valid()
      modifies this, data
      ensures Valid()
      ensures r == if old(Value()).IntFits() then 1 else 0
      ensures Value() == if r == 1 then old(Value()).(ints := old(Value()).ints + [i]) else old(Value())
    {
      hide Words, Word;
      var lo := text;
      var hi: nat := ints - 4;
      if lo >= hi {
        return 0;
      }
      ghost var d := data[..];
      Store(hi / 4, i);
      WordsKept(d, data[..], ints / 4);
      WordsGrow(data[..], hi / 4);
      ints := ints - 4;
      return 1;
    }

    /** Integer `offset`, from the first one stored or, when negative, from the last. */
    method GetI(offset: int) returns (i: Int32)
      requires Valid()
      requires if offset < 0 then -offset <= |Value().ints| else offset < |Value().ints|
      ensures i == Value().ints[if offset < 0 then |Value().ints| + offset else offset]
    {
      var o := (if offset < 0 then ints else data.Length) / 4 - 1;
      var k := o - offset;
      assert k == data.Length / 4 - 1 - (if offset < 0 then |Value().ints| + offset else offset);
      assert Word(data[..], k) == Unpack(data[4 * k], data[4 * k + 1], data[4 * k + 2], data[4 * k + 3]);
      return Unpack(data[4 * k], data[4 * k + 1], data[4 * k + 2], data[4 * k + 3]);
    }

    /** The buffer position of character `offset`, from the start or, when negative, from the end of the text. */
    method GetS(offset: int) returns (p: nat)
      requires Valid()
      requires if offset < 0 then -offset <= |Value().chars| else offset <= |Value().chars|
      ensures p == if offset < 0 then |Value().chars| + offset else offset
      ensures p < |Value().chars| ==> data[p] == Value().chars[p]
    {
      var o := if offset < 0 then text else 0;
      return o + offset;
    }

    method ReplaceC(offset: int, c: Char)
      requires Valid()
      requires if offset < 0 then -offset <= |Value().chars| else offset < |Value().chars|
      modifies data
      ensures Value() == var v := old(Value());
                         v.(chars := v.chars[(if offset < 0 then |v.chars| + offset else offset) := c])
    {
      var o := if offset < 0 then text else 0;
      WordsKept(data[..], data[..][o + offset := c], ints / 4);
      data[o + offset] := c;
    }

    method ReplaceI(offset: int, i: Int32)
      requires Valid()
      requires if offset < 0 then -offset <= |Value().ints| else offset < |Value().ints|
      modifies data
      ensures Value() == var v := old(Value());
                         v.(ints := v.ints[(if offset < 0 then |v.ints| + offset else offset) := i])
    {
      var o := (if offset < 0 then ints else data.Length) / 4 - 1;
      var k := o - offset;
      ghost var d := data[..];
      Store(k, i);
      WordsReplaced(d, data[..], ints / 4, k);
    }
  }

  /** Words from `lo` on depend only on the bytes from 4 * lo on. */
  lemma WordsKept(d: seq<Char>, d': seq<Char>, lo: nat)
    requires |d| == |d'| && |d| % 4 == 0 && 4 * lo <= |d|
    requires forall k :: 4 * lo <= k < |d| ==> d[k] == d'[k]
    ensures Words(d, lo) == Words(d', lo)
  {
  }

  lemma WordsGrow(d: seq<Char>, lo: nat)
    requires |d| % 4 == 0 && 4 * lo + 4 <= |d|
    ensures Words(d, lo) == Words(d, lo + 1) + [Word(d, lo)]
  {
  }

  lemma WordsReplaced(d: seq<Char>, d': seq<Char>, lo: nat, k: nat)
    requires |d| == |d'| && |d| % 4 == 0 && lo <= k && 4 * k + 4 <= |d|
    requires forall j :: 0 <= j < |d| && !(4 * k <= j < 4 * k + 4) ==> d[j] == d'[j]
    ensures Words(d', lo) == Words(d, lo)[|d| / 4 - 1 - k := Word(d', k)]
  {
  }
}
