/** Simultaneous replacement of disjoint ranges of a sequence: the meaning shared by the
    left-to-right rewriting of references and the right-to-left rewriting of mentions. */
module Splice {

  /** Replace positions [begin, end) by `put`. */
  datatype Edit<T> = Edit(begin: nat, end: nat, put: seq<T>)

  /** The edits lie within [from, to), in order and disjoint. */
  predicate Ordered<T>(edits: seq<Edit<T>>, from: nat, to: nat) {
    if edits == [] then from <= to
    else from <= edits[0].begin <= edits[0].end && Ordered(edits[1..], edits[0].end, to)
  }

  lemma {:induction false} OrderedWithin<T>(edits: seq<Edit<T>>, from: nat, to: nat)
    requires Ordered(edits, from, to)
    ensures from <= to
    ensures forall e <- edits :: from <= e.begin <= e.end <= to
  {
    if edits != [] {
      OrderedWithin(edits[1..], edits[0].end, to);
      assert edits == [edits[0]] + edits[1..];
    }
  }

  lemma {:induction false} OrderedWiden<T>(edits: seq<Edit<T>>, from: nat, to: nat, to': nat)
    requires Ordered(edits, from, to) && to <= to'
    ensures Ordered(edits, from, to')
  {
    if edits != [] {
      OrderedWiden(edits[1..], edits[0].end, to, to');
    }
  }

  /** Ordered nonempty edits are determined by their membership. */
  lemma {:induction false} OrderedEditsEqual<T>(edits: seq<Edit<T>>, edits': seq<Edit<T>>, from: nat, to: nat)
    requires Ordered(edits, from, to) && Ordered(edits', from, to)
    requires forall e <- edits :: e.begin < e.end
    requires forall e :: e in edits <==> e in edits'
    ensures edits == edits'
    decreases |edits|
  {
    if edits != [] {
      assert edits[0] in edits';
    }
    if edits' != [] {
      assert edits'[0] in edits;
    }
    if edits != [] {
      var e, e' := edits[0], edits'[0];
      OrderedWithin(edits[1..], e.end, to);
      OrderedWithin(edits'[1..], e'.end, to);
      assert edits == [e] + edits[1..] && edits' == [e'] + edits'[1..];
      assert e in edits' && e' in edits;
      assert e == e';
      forall x
        ensures x in edits[1..] <==> x in edits'[1..]
      {
        assert x in edits <==> x in edits';
      }
      OrderedEditsEqual(edits[1..], edits'[1..], e.end, to);
    }
  }

  /** What remains of text from position `from` on. */
  function SpliceFrom<T>(text: seq<T>, from: nat, edits: seq<Edit<T>>): seq<T>
    requires Ordered(edits, from, |text|)
    decreases |edits|
  {
    if edits == [] then text[from..]
    else
      OrderedWithin(edits, from, |text|);
      text[from..edits[0].begin] + edits[0].put + SpliceFrom(text, edits[0].end, edits[1..])
  }

  function Spliced<T>(text: seq<T>, edits: seq<Edit<T>>): seq<T>
    requires Ordered(edits, 0, |text|)
  {
    SpliceFrom(text, 0, edits)
  }

  /** Units before the first edit are copied. */
  lemma SpliceFromEarlier<T>(text: seq<T>, from: nat, to: nat, edits: seq<Edit<T>>)
    requires from <= to && Ordered(edits, to, |text|)
    ensures Ordered(edits, from, |text|) && to <= |text|
    ensures SpliceFrom(text, from, edits) == text[from..to] + SpliceFrom(text, to, edits)
  {
    OrderedWithin(edits, to, |text|);
    if edits == [] {
      assert text[from..] == text[from..to] + text[to..];
    } else {
      var begin, put, rest := edits[0].begin, edits[0].put, SpliceFrom(text, edits[0].end, edits[1..]);
      assert text[from..begin] == text[from..to] + text[to..begin];
      assert (text[from..to] + text[to..begin]) + put + rest == text[from..to] + (text[to..begin] + put + rest);
    }
  }

  // ---- Where each unit ends up ------------------------------------------------------------

  /** Position p lies in no replaced range. */
  ghost predicate Outside<T>(edits: seq<Edit<T>>, p: nat) {
    forall e <- edits :: p < e.begin || e.end <= p
  }

  /** Where position p of the text lands, counted from where `from` lands. */
  function Landing<T>(edits: seq<Edit<T>>, from: nat, p: nat): int {
    if edits == [] || p < edits[0].end then p - from
    else edits[0].begin - from + |edits[0].put| + Landing(edits[1..], edits[0].end, p)
  }

  /** Every unit outside the edits survives, in order. */
  lemma {:induction false} Survives<T>(text: seq<T>, edits: seq<Edit<T>>, from: nat, p: nat)
    requires Ordered(edits, from, |text|) && from <= p < |text| && Outside(edits, p)
    ensures 0 <= Landing(edits, from, p) < |SpliceFrom(text, from, edits)|
    ensures SpliceFrom(text, from, edits)[Landing(edits, from, p)] == text[p]
  {
    OrderedWithin(edits, from, |text|);
    if edits != [] {
      assert edits[0] in edits;
      if p >= edits[0].end {
        Survives(text, edits[1..], edits[0].end, p);
      }
    }
  }

  lemma {:induction false} SurvivesInOrder<T>(edits: seq<Edit<T>>, from: nat, to: nat, p: nat, q: nat)
    requires Ordered(edits, from, to) && from <= p < q && Outside(edits, p) && Outside(edits, q)
    ensures 0 <= Landing(edits, from, p) < Landing(edits, from, q)
  {
    if edits != [] {
      assert edits[0] in edits;
      if p >= edits[0].end {
        SurvivesInOrder(edits[1..], edits[0].end, to, p, q);
      } else if q >= edits[0].end {
        LandingNonnegative(edits[1..], edits[0].end, to, q);
      }
    }
  }

  lemma {:induction false} LandingNonnegative<T>(edits: seq<Edit<T>>, from: nat, to: nat, p: nat)
    requires Ordered(edits, from, to) && from <= p
    ensures 0 <= Landing(edits, from, p)
  {
    if edits != [] && p >= edits[0].end {
      LandingNonnegative(edits[1..], edits[0].end, to, p);
    }
  }

  /** Each replacement appears whole, right where its range began. */
  lemma {:induction false} Replaced<T>(text: seq<T>, edits: seq<Edit<T>>, from: nat, i: nat)
    requires Ordered(edits, from, |text|) && i < |edits|
    ensures var out, at := SpliceFrom(text, from, edits), LandingOfEdit(edits, from, i);
            0 <= at <= at + |edits[i].put| <= |out| && out[at..at + |edits[i].put|] == edits[i].put
  {
    OrderedWithin(edits, from, |text|);
    if i > 0 {
      Replaced(text, edits[1..], edits[0].end, i - 1);
      var out := SpliceFrom(text, from, edits);
      var rest := SpliceFrom(text, edits[0].end, edits[1..]);
      var before := text[from..edits[0].begin] + edits[0].put;
      assert out == before + rest;
      var at := LandingOfEdit(edits[1..], edits[0].end, i - 1);
      assert out[|before| + at..|before| + at + |edits[i].put|] == rest[at..at + |edits[i].put|];
    }
  }

  function LandingOfEdit<T>(edits: seq<Edit<T>>, from: nat, i: nat): int
    requires i < |edits|
  {
    if i == 0 then edits[0].begin - from
    else edits[0].begin - from + |edits[0].put| + LandingOfEdit(edits[1..], edits[0].end, i - 1)
  }

  /** Nothing else appears: the length is what survives plus what replaces. */
  lemma {:induction false} SplicedLength<T>(text: seq<T>, edits: seq<Edit<T>>, from: nat)
    requires Ordered(edits, from, |text|)
    ensures |SpliceFrom(text, from, edits)| + Removed(edits) == |text| - from + Inserted(edits)
  {
    OrderedWithin(edits, from, |text|);
    if edits != [] {
      SplicedLength(text, edits[1..], edits[0].end);
    }
  }

  function Removed<T>(edits: seq<Edit<T>>): int {
    if edits == [] then 0 else edits[0].end - edits[0].begin + Removed(edits[1..])
  }

  function Inserted<T>(edits: seq<Edit<T>>): nat {
    if edits == [] then 0 else |edits[0].put| + Inserted(edits[1..])
  }

  /** Every position outside the edits keeps its unit, at a landing place that respects the
      order. */
  ghost predicate SurvivorsInOrder<T>(text: seq<T>, edits: seq<Edit<T>>, out: seq<T>) {
    && (forall p: nat | p < |text| && Outside(edits, p) ::
          0 <= Landing(edits, 0, p) < |out| && out[Landing(edits, 0, p)] == text[p])
    && forall p: nat, q: nat | p < q && Outside(edits, p) && Outside(edits, q) ::
         Landing(edits, 0, p) < Landing(edits, 0, q)
  }

  predicate PlacedAt<T(==)>(e: Edit<T>, at: int, out: seq<T>) {
    0 <= at <= at + |e.put| <= |out| && out[at..at + |e.put|] == e.put
  }

  /** Every edit's replacement appears whole. */
  predicate Placed<T(==)>(edits: seq<Edit<T>>, out: seq<T>) {
    forall i | 0 <= i < |edits| :: PlacedAt(edits[i], LandingOfEdit(edits, 0, i), out)
  }

  lemma SplicedMeaning<T>(text: seq<T>, edits: seq<Edit<T>>)
    requires Ordered(edits, 0, |text|)
    ensures SurvivorsInOrder(text, edits, Spliced(text, edits)) && Placed(edits, Spliced(text, edits))
    ensures |Spliced(text, edits)| == |text| - Removed(edits) + Inserted(edits)
  {
    forall p: nat | p < |text| && Outside(edits, p)
      ensures 0 <= Landing(edits, 0, p) < |Spliced(text, edits)|
      ensures Spliced(text, edits)[Landing(edits, 0, p)] == text[p]
    {
      Survives(text, edits, 0, p);
    }
    forall p: nat, q: nat | p < q && Outside(edits, p) && Outside(edits, q)
      ensures Landing(edits, 0, p) < Landing(edits, 0, q)
    {
      SurvivesInOrder(edits, 0, |text|, p, q);
    }
    forall i | 0 <= i < |edits|
      ensures PlacedAt(edits[i], LandingOfEdit(edits, 0, i), Spliced(text, edits))
    {
      Replaced(text, edits, 0, i);
    }
    SplicedLength(text, edits, 0);
  }

  /** Replacing the last range first, by hand, leaves the other edits to be made. */
  lemma {:induction false} SplicedLast<T>(text: seq<T>, from: nat, edits: seq<Edit<T>>, last: Edit<T>)
    requires Ordered(edits, from, last.begin) && last.begin <= last.end <= |text|
    ensures Ordered(edits + [last], from, |text|)
    ensures var edited := text[..last.begin] + last.put + text[last.end..];
            Ordered(edits, from, |edited|) && SpliceFrom(edited, from, edits) == SpliceFrom(text, from, edits + [last])
    decreases |edits|
  {
    var edited := text[..last.begin] + last.put + text[last.end..];
    OrderedWithin(edits, from, last.begin);
    if edits == [] {
      assert edits + [last] == [last];
      assert edited[from..] == text[from..last.begin] + last.put + text[last.end..];
    } else {
      SplicedLast(text, edits[0].end, edits[1..], last);
      assert (edits + [last])[1..] == edits[1..] + [last];
      assert edits[0] in edits;
      KeptBefore(text, last, from, edits[0].begin);
    }
  }

  /** What lies before the replaced range stays. */
  lemma KeptBefore<T>(text: seq<T>, last: Edit<T>, from: nat, to: nat)
    requires from <= to <= last.begin <= last.end <= |text|
    ensures (text[..last.begin] + last.put + text[last.end..])[from..to] == text[from..to]
  {
    var rest := last.put + text[last.end..];
    assert text[..last.begin] + last.put + text[last.end..] == text[..last.begin] + rest;
  }
}
