/** Finding the value of a header field among the pairs a parse leaves: the scan of minuted/tap.c. */
module Lookups {
  import opened Chars
  import opened TextInts
  import opened Requests
  import opened Syntax
  import Safety

  /** The offset paired with the first code `h`. */
  function PairScan(ints: seq<int>, h: int): Option<int>
    decreases |ints|
  {
    if |ints| < 2 then None else if ints[0] == h then Some(ints[1]) else PairScan(ints[2..], h)
  }

  /** Offsets are places in the text. */
  ghost predicate Pairs(t: Text) {
    forall j :: 0 <= j < |t.ints| / 2 ==> 0 <= t.ints[2 * j + 1] <= |t.chars|
  }

  /** Any well folded head that is parsed whole leaves such pairs. */
  lemma IndexedPairs(t: Text)
    requires Safety.Indexed(t)
    ensures |t.ints| % 2 == 0 && Pairs(t)
  {
    forall j | 0 <= j < |t.ints| / 2
      ensures 0 <= t.ints[2 * j + 1] <= |t.chars|
    {
      assert t.ints[2 * j + 1] == Safety.FieldStart(t, j);
    }
  }

  lemma ScanStep(ints: seq<int>, i: nat, h: int)
    requires i < |ints| && i % 2 == 0 && |ints| % 2 == 0
    ensures i + 1 < |ints| && PairScan(ints[i..], h) == if ints[i] == h then Some(ints[i + 1])
            else PairScan(ints[i + 2..], h)
  {
    assert ints[i..][2..] == ints[i + 2..];
  }

  lemma WholeScan(ints: seq<int>, h: int)
    ensures PairScan(ints[0..], h) == PairScan(ints, h)
  {
    assert ints[0..] == ints;
  }

  lemma NothingLeft(ints: seq<int>, h: int)
    ensures PairScan(ints[|ints|..], h) == None
  {
  }

  lemma PairAt(t: Text, i: nat)
    requires Pairs(t) && i % 2 == 0 && i + 1 < |t.ints|
    ensures 0 <= t.ints[i + 1] <= |t.chars|
  {
    assert i + 1 == 2 * (i / 2) + 1;
  }

  /** The buffer position of the value of field `h`, if there is one. */
  method HeaderValue(text: TextInt, h: nat) returns (value: Option<nat>)
    requires text.Valid() && Pairs(text.Value()) && |text.Value().ints| % 2 == 0
    ensures value == match PairScan(text.Value().ints, h) case None => None case Some(o) => if o < 0 then None
            else Some(o)
    ensures PairScan(text.Value().ints, h).None? <==> value.None?
  {
    hide PairScan, Pairs, TextInt.Value;
    var n := (text.data.Length - text.ints) / 4;
    ghost var t := text.Value();
    WholeScan(t.ints, h);
    var i := 0;
    while i < n
      invariant 0 <= i <= n == |t.ints| && i % 2 == |t.ints| % 2 == 0
      invariant PairScan(t.ints[i..], h) == PairScan(t.ints, h)
    {
      ScanStep(t.ints, i, h);
      PairAt(t, i);
      var code := text.GetI(i);
      if code == h {
        var offset := text.GetI(i + 1);
        var p := text.GetS(offset);
        return Some(p);
      }
      i := i + 2;
    }
    NothingLeft(t.ints, h);
    return None;
  }

  // ---------------------------------------------------------------- what it finds after a printed head

  /** The first field of this code that is collected. */
  function FirstField(fs: seq<Field>, hmask: set<nat>, h: nat): (f: Option<Field>)
    ensures f.Some? ==> f.value.Text_? && f.value.code == h
  {
    if fs == [] then None
    else if fs[0].Text_? && fs[0].code == h && h in hmask then Some(fs[0])
    else FirstField(fs[1..], hmask, h)
  }

  /** `s` is in the text at `o`. */
  predicate At(t: Text, o: int, s: seq<Char>) { 0 <= o && o + |s| <= |t.chars| && t.chars[o..o + |s|] == s }

  /** Later fields leave what is there alone. */
  lemma {:induction false} FieldsExtend(fs: seq<Field>, hmask: set<nat>, t: Text)
    ensures var t' := FieldsText(fs, hmask, t);
            t.chars <= t'.chars && t.ints <= t'.ints && (|t'.ints| - |t.ints|) % 2 == 0
    decreases |fs|
  {
    if fs != [] {
      FieldsExtend(fs[1..], hmask, FieldText(fs[0], hmask, t));
    }
  }

  lemma {:induction false} ScanFindsFirst(fs: seq<Field>, hmask: set<nat>, t: Text, h: nat)
    ensures var t' := FieldsText(fs, hmask, t);
            |t.ints| <= |t'.ints| &&
            match FirstField(fs, hmask, h)
            case None => PairScan(t'.ints[|t.ints|..], h) == None
            case Some(f) =>
              var o := PairScan(t'.ints[|t.ints|..], h);
              o.Some? && At(t', o.value, Unfold(f.first, f.more) + [NUL])
    decreases |fs|
  {
    hide Unfold;
    if fs != [] {
      var f := fs[0];
      var t1 := FieldText(f, hmask, t);
      var t' := FieldsText(fs, hmask, t);
      FieldsExtend(fs[1..], hmask, t1);
      ScanFindsFirst(fs[1..], hmask, t1, h);
      if f.Text_? && f.code in hmask {
        var s := t'.ints[|t.ints|..];
        assert s[0] == t1.ints[|t.ints|] && s[1] == t1.ints[|t.ints| + 1] && s[2..] == t'.ints[|t1.ints|..];
        var v := Unfold(f.first, f.more) + [NUL];
        assert t1.chars == t.chars + v;
        assert t1.chars[|t.chars|..|t.chars| + |v|] == v;
      }
    }
  }

  /** After a printed head, the scan finds the first collected field of a code, and there its folded value with a NUL;
      and nothing when there is no such field. */
  lemma FirstValueFound(g: Message, hmask: set<nat>, size: nat, h: nat)
    ensures var t := MessageText(g, hmask, size);
            match FirstField(g.fields, hmask, h)
            case None => PairScan(t.ints, h) == None
            case Some(f) =>
              && PairScan(t.ints, h).Some?
              && At(t, PairScan(t.ints, h).value, Unfold(f.first, f.more) + [NUL])
  {
    var t := MessageText(g, hmask, size);
    ScanFindsFirst(g.fields, hmask, Text([NUL] + TargetText(g), [], size), h);
    assert t.ints[0..] == t.ints;
  }
}
