/** UTF-16 as Go's unicode/utf16 encodes and decodes it (sections 2.1 and 2.2 of RFC 2781). */
module Utf16 {
  import opened Collections

  /** A Unicode scalar value. */
  type Rune = r: nat | r < 0xD800 || 0xE000 <= r < 0x11_0000

  type Unit = u: nat | u < 0x1_0000

  const REPLACEMENT: Rune := 0xFFFD

  predicate High(u: Unit) { 0xD800 <= u < 0xDC00 }

  predicate Low(u: Unit) { 0xDC00 <= u < 0xE000 }

  function EncodeRune(r: Rune): seq<Unit> {
    if r < 0x1_0000 then [r]
    else [0xD800 + (r - 0x1_0000) / 0x400, 0xDC00 + (r - 0x1_0000) % 0x400]
  }

  function Encode(runes: seq<Rune>): seq<Unit> {
    if runes == [] then [] else EncodeRune(runes[0]) + Encode(runes[1..])
  }

  /** The first rune decoded, and how many units it took. A surrogate without its partner
      decodes to the replacement character. */
  function First(units: seq<Unit>): (r: (Rune, nat))
    requires units != []
    ensures 1 <= r.1 <= |units| && r.1 <= 2
  {
    if High(units[0]) && |units| > 1 && Low(units[1]) then
      var high: int, low: int := units[0], units[1];
      (0x1_0000 + (high - 0xD800) * 0x400 + (low - 0xDC00), 2)
    else if High(units[0]) || Low(units[0]) then (REPLACEMENT, 1)
    else (units[0], 1)
  }

  function Decode(units: seq<Unit>): seq<Rune> {
    if units == [] then []
    else
      var (r, n) := First(units);
      [r] + Decode(units[n..])
  }

  /** Position p falls between the two halves of a surrogate pair. */
  predicate SplitsPair(units: seq<Unit>, p: nat) {
    0 < p < |units| && High(units[p - 1]) && Low(units[p])
  }

  lemma {:induction false} DecodeEncode(runes: seq<Rune>)
    ensures Decode(Encode(runes)) == runes
  {
    if runes != [] {
      DecodeEncode(runes[1..]);
      var units := Encode(runes);
      assert units[|EncodeRune(runes[0])|..] == Encode(runes[1..]);
    }
  }

  lemma {:induction false} EncodeConcat(a: seq<Rune>, b: seq<Rune>)
    ensures Encode(a + b) == Encode(a) + Encode(b)
  {
    if a == [] {
      assert a + b == b;
    } else {
      DropConcat(a, b, 1);
      EncodeConcat(a[1..], b);
      Associate(EncodeRune(a[0]), Encode(a[1..]), Encode(b));
    }
  }

  lemma FirstOfConcat(a: seq<Unit>, b: seq<Unit>)
    requires a != [] && (b == [] || !High(a[|a| - 1]) || !Low(b[0]))
    ensures First(a + b) == First(a)
  {
  }

  lemma {:induction false} DecodeConcat(a: seq<Unit>, b: seq<Unit>)
    requires a == [] || b == [] || !High(a[|a| - 1]) || !Low(b[0])
    ensures Decode(a + b) == Decode(a) + Decode(b)
    decreases |a|
  {
    if a == [] {
      assert a + b == b;
    } else {
      var (r, n) := First(a);
      FirstOfConcat(a, b);
      DropConcat(a, b, n);
      DecodeConcat(a[n..], b);
      Associate([r], Decode(a[n..]), Decode(b));
    }
  }

  /** Where the rune at index i starts. */
  function UnitIndex(runes: seq<Rune>, i: nat): nat
    requires i <= |runes|
  {
    |Encode(runes[..i])|
  }

  lemma EncodeSlice(runes: seq<Rune>, i: nat, j: nat)
    requires i <= j <= |runes|
    ensures UnitIndex(runes, i) <= UnitIndex(runes, j) <= |Encode(runes)|
    ensures Encode(runes)[UnitIndex(runes, i)..UnitIndex(runes, j)] == Encode(runes[i..j])
  {
    EncodeConcat(runes[..i], runes[i..j]);
    EncodeConcat(runes[..j], runes[j..]);
    assert runes[..j] == runes[..i] + runes[i..j];
    assert runes == runes[..j] + runes[j..];
  }

  /** A position of encoded text starts a rune exactly if it splits no surrogate pair. */
  lemma {:induction false} RuneBoundary(runes: seq<Rune>, p: nat)
    requires p <= |Encode(runes)|
    ensures !SplitsPair(Encode(runes), p) <==> exists i | 0 <= i <= |runes| :: UnitIndex(runes, i) == p
  {
    if p == 0 {
      assert UnitIndex(runes, 0) == 0;
    } else {
      var n := |EncodeRune(runes[0])|;
      if p < n {
        assert SplitsPair(Encode(runes), p);
        forall i | 0 <= i <= |runes|
          ensures UnitIndex(runes, i) != p
        {
          if i > 0 {
            assert runes[..i][0] == runes[0];
          }
        }
      } else {
        RuneBoundary(runes[1..], p - n);
        FirstIsNotLow(runes[1..]);
        assert SplitsPair(Encode(runes), p) <==> SplitsPair(Encode(runes[1..]), p - n);
        forall i | 0 <= i < |runes|
          ensures UnitIndex(runes, i + 1) == n + UnitIndex(runes[1..], i)
        {
          assert runes[..i + 1][1..] == runes[1..][..i];
        }
        if i :| 0 <= i <= |runes[1..]| && UnitIndex(runes[1..], i) == p - n {
          assert UnitIndex(runes, i + 1) == p;
        }
        if i :| 0 <= i <= |runes| && UnitIndex(runes, i) == p {
          assert i > 0;
          assert UnitIndex(runes[1..], i - 1) == p - n;
        }
      }
    }
  }

  lemma FirstIsNotLow(runes: seq<Rune>)
    ensures runes != [] ==> Encode(runes) != [] && !Low(Encode(runes)[0])
  {
  }

  // ---- Units that decode without loss ---------------------------------------------------------------

  /** No surrogate stands without its partner. */
  predicate WellFormed(units: seq<Unit>) {
    Encode(Decode(units)) == units
  }

  lemma {:induction false} SameLength(units: seq<Unit>)
    ensures |Encode(Decode(units))| == |units|
    decreases |units|
  {
    if units != [] {
      SameLength(units[First(units).1..]);
    }
  }

  lemma {:induction false} EncodedEnds(runes: seq<Rune>)
    requires runes != []
    ensures var units := Encode(runes); units != [] && !Low(units[0]) && !High(units[|units| - 1])
  {
    if |runes| > 1 {
      EncodedEnds(runes[1..]);
    }
  }

  lemma WellFormedEnds(units: seq<Unit>)
    requires WellFormed(units) && units != []
    ensures !Low(units[0]) && !High(units[|units| - 1])
  {
    EncodedEnds(Decode(units));
  }

  lemma ConcatEqual(a: seq<Unit>, b: seq<Unit>, a': seq<Unit>, b': seq<Unit>)
    requires |a| == |a'|
    ensures a + b == a' + b' <==> a == a' && b == b'
  {
    if a + b == a' + b' {
      assert a == (a + b)[..|a|] == a';
      assert b == (a + b)[|a|..] == b';
    }
  }

  /** Where no pair comes to be split or joined, both parts must be well formed. */
  lemma WellFormedConcat(a: seq<Unit>, b: seq<Unit>)
    requires a == [] || b == [] || !High(a[|a| - 1]) || !Low(b[0])
    ensures WellFormed(a + b) <==> WellFormed(a) && WellFormed(b)
  {
    DecodeConcat(a, b);
    EncodeConcat(Decode(a), Decode(b));
    SameLength(a);
    ConcatEqual(Encode(Decode(a)), Encode(Decode(b)), a, b);
  }

  /** A stretch of encoded text is well formed exactly if it is empty or splits no pair. */
  lemma WellFormedSlice(runes: seq<Rune>, i: nat, j: nat)
    requires i <= j <= |Encode(runes)|
    ensures var units := Encode(runes);
            WellFormed(units[i..j]) <==> i == j || (!SplitsPair(units, i) && !SplitsPair(units, j))
  {
    var units := Encode(runes);
    if i == j {
      assert units[i..j] == [];
    } else if SplitsPair(units, i) || SplitsPair(units, j) {
      assert units[i..j][0] == units[i] && units[i..j][j - i - 1] == units[j - 1];
      if WellFormed(units[i..j]) {
        WellFormedEnds(units[i..j]);
        assert false;
      }
    } else {
      RuneBoundary(runes, i);
      RuneBoundary(runes, j);
      var k :| 0 <= k <= |runes| && UnitIndex(runes, k) == i;
      var l :| 0 <= l <= |runes| && UnitIndex(runes, l) == j;
      if l < k {
        EncodeSlice(runes, l, k);
        assert false;
      }
      EncodeSlice(runes, k, l);
      DecodeEncode(runes[k..l]);
    }
  }
}
