/** Which words an ordinal gets: each pair of words once in every round of 65536 ordinals, in an order that
    repeats; and that the grammar admits nothing else (internal/identity/alias.go:14-57). */
module AliasPairs {
  import opened AliasNames
  import opened SlotPermutation
  import opened Wrappers

  // ---- Every pair, once ---------------------------------------------------------------------------------

  predicate Injective(f: nat -> nat, n: nat) {
    (forall x | 0 <= x < n :: f(x) < n) && forall x, y | 0 <= x < y < n :: f(x) != f(y)
  }

  function Below(n: nat): (s: set<nat>)
    ensures forall x: nat :: x in s <==> x < n
  {
    if n == 0 then {} else Below(n - 1) + {n - 1}
  }

  lemma {:induction false} BelowCounts(n: nat)
    ensures |Below(n)| == n
  {
    if n > 0 { BelowCounts(n - 1); }
  }

  function Image(f: nat -> nat, k: nat): set<nat> {
    set x: nat | 0 <= x < k :: f(x)
  }

  lemma {:induction false} ImageCounts(f: nat -> nat, k: nat, n: nat)
    requires Injective(f, n) && k <= n
    ensures |Image(f, k)| == k
    decreases k
  {
    if k > 0 {
      ImageCounts(f, k - 1, n);
      assert Image(f, k) == Image(f, k - 1) + {f(k - 1)};
      assert f(k - 1) !in Image(f, k - 1);
    }
  }

  lemma Subset(a: set<nat>, b: set<nat>)
    requires a <= b && |a| == |b|
    ensures a == b
  {
    assert b == a + (b - a);
  }

  /** What never maps two slots to one leaves none out. */
  lemma Onto(f: nat -> nat, n: nat, y: nat) returns (x: nat)
    requires Injective(f, n) && y < n
    ensures x < n && f(x) == y
  {
    ImageCounts(f, n, n);
    BelowCounts(n);
    Subset(Image(f, n), Below(n));
    assert y in Image(f, n);
    x :| x < n && f(x) == y;
  }

  lemma ScrambleOnto(slot: nat) returns (x: nat)
    requires slot < 65536
    ensures x < 65536 && Scramble(x) == slot
  {
    var f: nat -> nat := s => Scramble(s);
    forall a: nat, b: nat | a < 65536 && b < 65536 ensures f(a) < 65536 && (f(a) == f(b) ==> a == b) {
      ScrambleIsPermutation(a, b);
    }
    x := Onto(f, 65536, slot);
  }

  function Pair(words: Words, i: nat, j: nat): string
    requires words.Valid() && i < 256 && j < 256
  {
    words.adjectives[i] + " " + words.nouns[j]
  }

  /** The pair, and from the second round on the number of the round. */
  function Numbered(words: Words, i: nat, j: nat, round: nat): string
    requires words.Valid() && i < 256 && j < 256
  {
    if round <= 1 then Pair(words, i, j) else Pair(words, i, j) + " " + Decimal(round)
  }

  lemma AliasOfSlot(words: Words, x: nat, rounds: nat, scrambled: bool, i: nat, j: nat)
    requires words.Valid() && x < 65536 && i < 256 && j < 256
    requires (if scrambled then Scramble(x) else x) == 256 * i + j
    ensures Alias(words, 65536 * rounds + x + 1, scrambled) == Some(Numbered(words, i, j, rounds + 1))
  {
    var ordinal := 65536 * rounds + x + 1;
    RoundOf(x, rounds);
    PartsOf(i, j);
    assert Slot(ordinal, scrambled) == 256 * i + j && Tier(ordinal) == rounds + 1;
    Suffixed(Pair(words, i, j), rounds + 1);
  }

  lemma Suffixed(pair: string, tier: nat)
    ensures pair + TierSuffix(tier) == if tier <= 1 then pair else pair + " " + Decimal(tier)
  {
    assert pair + "" == pair;
    assert pair + (" " + Decimal(tier)) == pair + " " + Decimal(tier);
  }

  lemma PartsOf(i: nat, j: nat)
    requires i < 256 && j < 256
    ensures (256 * i + j) / 256 == i && (256 * i + j) % 256 == j && 256 * i + j < 65536
  {
  }

  lemma RoundOf(x: nat, rounds: nat)
    requires x < 65536
    ensures (65536 * rounds + x) % 65536 == x && (65536 * rounds + x) / 65536 == rounds
  {
  }

  /** In each round of ordinals, under either ordering, every adjective meets every noun, with the number of
      the round after the first. No two ordinals share an alias (AliasInjective), so it does so once. */
  lemma EveryPair(words: Words, i: nat, j: nat, round: nat, scrambled: bool) returns (ordinal: int)
    requires words.Valid() && i < 256 && j < 256 && round >= 1
    ensures 65536 * (round - 1) < ordinal <= 65536 * round
    ensures Alias(words, ordinal, scrambled) == Some(Numbered(words, i, j, round))
  {
    var x := SlotOf(i, j, scrambled);
    ordinal := 65536 * (round - 1) + x + 1;
    AliasOfSlot(words, x, round - 1, scrambled, i, j);
  }

  lemma WordsAt(x: nat, scrambled: bool) returns (i: nat, j: nat)
    requires x < 65536
    ensures i < 256 && j < 256 && (if scrambled then Scramble(x) else x) == 256 * i + j
  {
    ScrambleIsPermutation(x, x);
    var slot := if scrambled then Scramble(x) else x;
    i, j := slot / 256, slot % 256;
  }

  lemma SlotOf(i: nat, j: nat, scrambled: bool) returns (x: nat)
    requires i < 256 && j < 256
    ensures x < 65536 && (if scrambled then Scramble(x) else x) == 256 * i + j
  {
    x := 256 * i + j;
    if scrambled { x := ScrambleOnto(256 * i + j); }
  }

  /** The order repeats: later rounds have the same words, with their number. */
  lemma OrderRepeats(words: Words, ordinal: int, rounds: nat, scrambled: bool)
    requires words.Valid() && 1 <= ordinal <= 65536 && rounds >= 1
    ensures Alias(words, ordinal, scrambled).Some?
    ensures Alias(words, ordinal + 65536 * rounds, scrambled) ==
            Some(Alias(words, ordinal, scrambled).value + " " + Decimal(rounds + 1))
  {
    var x := ordinal - 1;
    var i, j := WordsAt(x, scrambled);
    AliasOfSlot(words, x, rounds, scrambled, i, j);
    AliasOfSlot(words, x, 0, scrambled, i, j);
  }

  // ---- The orders -----------------------------------------------------------------------------------------

  /** The old order goes through the nouns, and then to the next adjective. */
  lemma OldOrder(words: Words, i: nat, j: nat)
    requires words.Valid() && i < 256 && j < 256
    ensures Alias(words, 256 * i + j + 1, false) == Some(Pair(words, i, j))
  {
    PartsOf(i, j);
    AliasOfSlot(words, 256 * i + j, 0, false, i, j);
  }

  // ---- The grammar and the ordinals -----------------------------------------------------------------------

  lemma OneMoreDigit(v: nat, d: nat)
    requires v >= 1 && d < 10
    ensures Decimal(10 * v + d) == Decimal(v) + [Digit(d)]
  {
  }

  lemma ValueSnoc(init: string, c: char)
    requires (forall x <- init :: IsDigit(x)) && IsDigit(c)
    ensures forall x <- init + [c] :: IsDigit(x)
    ensures Value(init + [c]) == 10 * Value(init) + (c as int - '0' as int)
  {
    assert (init + [c])[..|init|] == init;
  }

  /** Without a leading zero, a numeral is that of its value. */
  lemma {:induction false} NumeralIs(s: string)
    requires s != [] && (forall c <- s :: IsDigit(c)) && s[0] != '0'
    ensures 1 <= Value(s) < Pow10(|s|) && Decimal(Value(s)) == s
    ensures |s| > 1 ==> Value(s) >= 10
    decreases |s|
  {
    var init, last := s[..|s| - 1], s[|s| - 1];
    assert s == init + [last] && IsDigit(last);
    ValueSnoc(init, last);
    if init == [] {
      OneDigit(s);
    } else {
      NumeralIs(init);
      OneMoreDigit(Value(init), last as int - '0' as int);
      Tenfold(Value(init), last as int - '0' as int, |init|);
    }
  }

  lemma Tenfold(v: nat, d: nat, k: nat)
    requires 1 <= v < Pow10(k) && d < 10
    ensures 10 <= 10 * v + d < Pow10(k + 1)
  {
  }

  /** A legal tier is the numeral of a number from 2 on, below 10^15. */
  lemma TierIff(s: string)
    ensures IsTier(s) <==> exists n: nat | 2 <= n < 1_000_000_000_000_000 :: s == Decimal(n)
  {
    PowersOfTen();
    if IsTier(s) {
      NumeralIs(s);
      MorePower(|s|, 15);
      if |s| == 1 { OneDigit(s); }
    }
    if n: nat :| 2 <= n < 1_000_000_000_000_000 && s == Decimal(n) {
      DecimalValue(n);
      DecimalLength(n, 15);
      if |s| == 1 { OneDigit(s); }
    }
  }

  lemma OneDigit(s: string)
    requires |s| == 1 && IsDigit(s[0])
    ensures Value(s) == s[0] as int - '0' as int
  {
    assert s[..0] == [];
  }

  lemma PowersOfTen()
    ensures Pow10(15) == 1_000_000_000_000_000
  {
    assert Pow10(5) == 100_000 && Pow10(10) == 10_000_000_000;
  }

  lemma {:induction false} MorePower(a: nat, b: nat)
    requires a <= b
    ensures 1 <= Pow10(a) <= Pow10(b)
    decreases b
  {
    if b > 0 { MorePower(if a < b then a else a - 1, b - 1); }
  }

  /** The two words of an alias are in the tables. */
  ghost predicate InTables(words: Words, s: string) {
    exists i, j | 0 <= i < j <= |s| :: SplitsAt(s, i, j) && s[..i] in words.adjectives && s[i + 1..j] in words.nouns
  }

  /** The grammar admits, with words of the tables, exactly the aliases of the rounds below 10^15. */
  lemma AliasIff(words: Words, s: string, scrambled: bool)
    requires words.Valid()
    ensures IsAlias(s) && InTables(words, s) <==>
            exists ordinal | 1 <= ordinal <= 65536 * 999_999_999_999_999 :: Alias(words, ordinal, scrambled) == Some(s)
  {
    if InTables(words, s) {
      var ordinal := OrdinalOf(words, s, scrambled);
    }
    if ordinal :| 1 <= ordinal <= 65536 * 999_999_999_999_999 && Alias(words, ordinal, scrambled) == Some(s) {
      AliasInTables(words, ordinal, scrambled);
    }
  }

  lemma PairOf(words: Words, s: string, i: nat, j: nat) returns (a: nat, n: nat)
    requires words.Valid() && i < j <= |s| && SplitsAt(s, i, j)
    requires s[..i] in words.adjectives && s[i + 1..j] in words.nouns
    ensures a < 256 && n < 256 && s[..j] == Pair(words, a, n)
  {
    a :| a < 256 && words.adjectives[a] == s[..i];
    n :| n < 256 && words.nouns[n] == s[i + 1..j];
    assert s[..j] == s[..i] + " " + s[i + 1..j];
  }

  lemma RoundOfTail(s: string, i: nat, j: nat) returns (round: nat)
    requires i < j <= |s| && SplitsAt(s, i, j)
    ensures 1 <= round < 1_000_000_000_000_000
    ensures s == if round == 1 then s[..j] else s[..j] + " " + Decimal(round)
  {
    round := 1;
    if j == |s| {
      assert s == s[..j];
    } else {
      TierIff(s[j + 1..]);
      round :| 2 <= round < 1_000_000_000_000_000 && s[j + 1..] == Decimal(round);
      assert s == s[..j] + " " + s[j + 1..];
    }
  }

  lemma OrdinalOf(words: Words, s: string, scrambled: bool) returns (ordinal: int)
    requires words.Valid() && InTables(words, s)
    ensures 1 <= ordinal <= 65536 * 999_999_999_999_999 && Alias(words, ordinal, scrambled) == Some(s)
  {
    var i, j :| 0 <= i < j <= |s| && SplitsAt(s, i, j) && s[..i] in words.adjectives && s[i + 1..j] in words.nouns;
    var a, n := PairOf(words, s, i, j);
    var round := RoundOfTail(s, i, j);
    ordinal := EveryPair(words, a, n, round, scrambled);
  }

  lemma JoinedSplits(adj: string, noun: string, tier: nat)
    requires IsWord(adj) && IsWord(noun) && 1 <= tier < 1_000_000_000_000_000
    ensures var s, i, j := adj + " " + noun + TierSuffix(tier), |adj|, |adj| + 1 + |noun|;
            i < j <= |s| && SplitsAt(s, i, j) && s[..i] == adj && s[i + 1..j] == noun
  {
    var s, i, j := adj + " " + noun + TierSuffix(tier), |adj|, |adj| + 1 + |noun|;
    assert s[..i] == adj && s[i + 1..j] == noun;
    if tier > 1 {
      TierIff(Decimal(tier));
      assert s[j + 1..] == Decimal(tier);
    }
  }

  lemma RoundIsBelow(ordinal: int)
    requires 1 <= ordinal <= 65536 * 999_999_999_999_999
    ensures 1 <= Tier(ordinal) < 1_000_000_000_000_000
  {
  }

  lemma AliasInTables(words: Words, ordinal: int, scrambled: bool)
    requires words.Valid() && 1 <= ordinal <= 65536 * 999_999_999_999_999
    ensures var s := Alias(words, ordinal, scrambled).value; IsAlias(s) && InTables(words, s)
  {
    var slot := Slot(ordinal, scrambled);
    RoundIsBelow(ordinal);
    JoinedSplits(words.adjectives[slot / 256], words.nouns[slot % 256], Tier(ordinal));
  }
}
