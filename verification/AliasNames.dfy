/** Aliases of ordinals and the alias token grammar (internal/identity/alias.go). Go text is
    bytes; a char stands for one byte, and the grammar is ASCII. */
module AliasNames {
  import opened Basics
  import opened SlotPermutation
  import opened Wrappers

  predicate IsLetter(c: char) { 'A' <= c <= 'Z' || 'a' <= c <= 'z' }

  predicate IsDigit(c: char) { '0' <= c <= '9' }

  /** [A-Za-z]{2,16} */
  predicate IsWord(s: string) {
    2 <= |s| <= 16 && forall c <- s :: IsLetter(c)
  }

  /** [2-9]|[1-9][0-9]{1,14} */
  predicate IsTier(s: string) {
    && 1 <= |s| <= 15 && (forall c <- s :: IsDigit(c)) && s[0] != '0'
    && (|s| == 1 ==> s[0] != '1')
  }

  /** Two words, optionally followed by a tier, separated by single spaces. */
  predicate IsAlias(s: string) {
    exists i, j | 0 <= i < j <= |s| :: SplitsAt(s, i, j)
  }

  predicate SplitsAt(s: string, i: nat, j: nat)
    requires i < j <= |s|
  {
    && s[i] == ' ' && IsWord(s[..i]) && IsWord(s[i + 1..j])
    && (j == |s| || (s[j] == ' ' && IsTier(s[j + 1..])))
  }

  /** ParseAliasToken: a whole token, never a substring. */
  function ParseAliasToken(token: string): Option<string> {
    if 3 <= |token| && token[..2] == "@{" && token[|token| - 1] == '}' && IsAlias(token[2..|token| - 1])
    then Some(token[2..|token| - 1])
    else None
  }

  // ---- Case folding and decimal numerals ------------------------------------------------

  /** SQLite NOCASE folds ASCII letters only. */
  function LowerChar(c: char): char {
    if 'A' <= c <= 'Z' then ((c as int) + 32) as char else c
  }

  function Lower(s: string): string {
    seq(|s|, i requires 0 <= i < |s| => LowerChar(s[i]))
  }

  /** The same character, or the same letter in the other case. */
  predicate SameLetter(a: char, b: char) {
    || a == b
    || ('a' <= a <= 'z' && a as int - b as int == 'a' as int - 'A' as int)
    || ('a' <= b <= 'z' && b as int - a as int == 'a' as int - 'A' as int)
  }

  /** What ignoring the case of ASCII letters means. */
  lemma LowerIff(s: string, t: string)
    ensures Lower(s) == Lower(t) <==> |s| == |t| && forall i | 0 <= i < |s| :: SameLetter(s[i], t[i])
  {
    if |s| == |t| {
      forall i | 0 <= i < |s| ensures Lower(s)[i] == Lower(t)[i] <==> SameLetter(s[i], t[i]) {
        SameLower(s[i], t[i]);
      }
      assert Lower(s) == Lower(t) <==> forall i | 0 <= i < |s| :: Lower(s)[i] == Lower(t)[i];
    }
  }

  lemma SameLower(a: char, b: char)
    ensures LowerChar(a) == LowerChar(b) <==> SameLetter(a, b)
  {
  }

  function Digit(d: nat): char
    requires d < 10
  {
    ('0' as int + d) as char
  }

  /** strconv.FormatInt for a natural number */
  function Decimal(n: nat): (s: string)
    ensures |s| > 0
  {
    if n < 10 then [Digit(n)] else Decimal(n / 10) + [Digit(n % 10)]
  }

  /** The value a numeral denotes. */
  function Value(s: string): nat
    requires forall c <- s :: IsDigit(c)
  {
    if s == [] then 0
    else
      assert IsDigit(s[|s| - 1]);
      10 * Value(s[..|s| - 1]) + (s[|s| - 1] as int - '0' as int)
  }

  function Pow10(k: nat): nat {
    if k == 0 then 1 else 10 * Pow10(k - 1)
  }

  lemma {:induction false} DecimalValue(n: nat)
    ensures forall c <- Decimal(n) :: IsDigit(c)
    ensures Value(Decimal(n)) == n
    ensures n > 0 ==> Decimal(n)[0] != '0'
    decreases n
  {
    var s := Decimal(n);
    if n >= 10 {
      DecimalValue(n / 10);
      assert s[..|s| - 1] == Decimal(n / 10);
    } else {
      assert s[..|s| - 1] == [];
    }
  }

  lemma {:induction false} DecimalLength(n: nat, k: nat)
    requires n < Pow10(k) && k > 0
    ensures |Decimal(n)| <= k
    decreases k
  {
    if n >= 10 {
      DecimalLength(n / 10, k - 1);
    }
  }

  // ---- The words ----------------------------------------------------------------------

  /** The frozen vocabulary: 256 adjectives and 256 nouns. */
  datatype Words = Words(adjectives: seq<string>, nouns: seq<string>) {
    predicate Valid() {
      Table(adjectives) && Table(nouns)
    }
  }

  predicate Table(words: seq<string>) {
    && |words| == 256 && (forall w <- words :: IsWord(w))
    && forall i, j :: 0 <= i < j < 256 ==> Lower(words[i]) != Lower(words[j])
  }

  function Slot(ordinal: int, scrambled: bool): (slot: nat)
    requires ordinal >= 1
    ensures slot < SLOTS
  {
    var slot := (ordinal - 1) % SLOTS;
    ScrambleIsPermutation(slot, slot);
    if scrambled then Scramble(slot) else slot
  }

  function Tier(ordinal: int): nat
    requires ordinal >= 1
  {
    (ordinal - 1) / SLOTS + 1
  }

  function TierSuffix(tier: nat): string {
    if tier > 1 then " " + Decimal(tier) else ""
  }

  /** syncSetAlias; None is the error for a nonpositive ordinal. */
  function Alias(words: Words, ordinal: int, scrambled: bool): Option<string>
    requires words.Valid()
  {
    if ordinal < 1 then None
    else
      var slot := Slot(ordinal, scrambled);
      Some(words.adjectives[slot / 256] + " " + words.nouns[slot % 256] + TierSuffix(Tier(ordinal)))
  }

  // ---- Distinct ordinals, distinct aliases ----------------------------------------------

  predicate NoSpace(s: string) {
    ' ' !in s
  }

  /** Text splits uniquely at its first space. */
  lemma FirstSpace(u: string, v: string, u': string, v': string)
    requires NoSpace(u) && NoSpace(u') && u + " " + v == u' + " " + v'
    ensures u == u' && v == v'
  {
    var t := u + " " + v;
    assert t == u' + " " + v';
    assert t[|u|] == ' ' && t[|u'|] == ' ';
    assert forall i :: 0 <= i < |u| ==> t[i] == u[i] && u[i] in u;
    assert forall i :: 0 <= i < |u'| ==> t[i] == u'[i] && u'[i] in u';
    assert u == t[..|u|] && u' == t[..|u'|];
    assert v == t[|u| + 1..] && v' == t[|u'| + 1..];
  }

  lemma LowerKeepsSpaces(s: string)
    requires forall c <- s :: IsLetter(c) || IsDigit(c)
    ensures NoSpace(Lower(s))
    ensures (forall c <- s :: IsDigit(c)) ==> Lower(s) == s
  {
    forall i | 0 <= i < |s|
      ensures Lower(s)[i] != ' ' && (IsDigit(s[i]) ==> Lower(s)[i] == s[i])
    {
      assert s[i] in s;
    }
  }

  lemma LowerTail(noun: string, digits: string)
    requires IsWord(noun) && forall c <- digits :: IsDigit(c)
    ensures NoSpace(Lower(noun))
    ensures Lower(noun + (" " + digits)) == Lower(noun) + " " + digits
  {
    LowerKeepsSpaces(noun);
    LowerKeepsSpaces(digits);
    LowerSplit(noun, digits);
    assert noun + (" " + digits) == noun + " " + digits;
  }

  lemma LowerSuffix(noun: string, tier: nat)
    requires IsWord(noun) && tier >= 1
    ensures NoSpace(Lower(noun))
    ensures Lower(noun + TierSuffix(tier)) == if tier > 1 then Lower(noun) + " " + Decimal(tier) else Lower(noun)
    ensures NoSpace(Lower(noun + TierSuffix(tier))) <==> tier == 1
  {
    LowerTail(noun, []);
    if tier > 1 {
      DecimalValue(tier);
      LowerTail(noun, Decimal(tier));
      assert (Lower(noun) + " " + Decimal(tier))[|noun|] == ' ';
    } else {
      assert noun + "" == noun;
    }
  }

  /** A lower-cased noun and tier suffix determine both. */
  lemma SuffixDetermines(noun: string, tier: nat, noun': string, tier': nat)
    requires IsWord(noun) && IsWord(noun') && tier >= 1 && tier' >= 1
    requires Lower(noun + TierSuffix(tier)) == Lower(noun' + TierSuffix(tier'))
    ensures Lower(noun) == Lower(noun') && tier == tier'
  {
    LowerSuffix(noun, tier);
    LowerSuffix(noun', tier');
    if tier > 1 && tier' > 1 {
      FirstSpace(Lower(noun), Decimal(tier), Lower(noun'), Decimal(tier'));
      DecimalValue(tier);
      DecimalValue(tier');
    }
  }

  lemma LowerJoin(adj: string, noun: string, suffix: string)
    requires IsWord(adj)
    ensures NoSpace(Lower(adj))
    ensures Lower(adj + " " + noun + suffix) == Lower(adj) + " " + Lower(noun + suffix)
  {
    assert adj + " " + noun + suffix == adj + " " + (noun + suffix);
    LowerSplit(adj, noun + suffix);
    LowerKeepsSpaces(adj);
  }

  /** A lower-cased alias determines its lower-cased words and its tier. */
  lemma JoinedDetermines(adj: string, noun: string, tier: nat, adj': string, noun': string, tier': nat)
    requires IsWord(adj) && IsWord(noun) && IsWord(adj') && IsWord(noun') && tier >= 1 && tier' >= 1
    requires Lower(adj + " " + noun + TierSuffix(tier)) == Lower(adj' + " " + noun' + TierSuffix(tier'))
    ensures Lower(adj) == Lower(adj') && Lower(noun) == Lower(noun') && tier == tier'
  {
    var rest, rest' := noun + TierSuffix(tier), noun' + TierSuffix(tier');
    LowerJoin(adj, noun, TierSuffix(tier));
    LowerJoin(adj', noun', TierSuffix(tier'));
    FirstSpace(Lower(adj), Lower(rest), Lower(adj'), Lower(rest'));
    SuffixDetermines(noun, tier, noun', tier');
  }

  /** Under one ordering, ordinals with the same alias, ignoring letter case, are the same
      ordinal. */
  lemma AliasInjective(words: Words, a: int, b: int, scrambled: bool)
    requires words.Valid() && a >= 1 && b >= 1
    requires Lower(Alias(words, a, scrambled).value) == Lower(Alias(words, b, scrambled).value)
    ensures a == b
  {
    var s, s' := Slot(a, scrambled), Slot(b, scrambled);
    JoinedDetermines(words.adjectives[s / 256], words.nouns[s % 256], Tier(a),
                     words.adjectives[s' / 256], words.nouns[s' % 256], Tier(b));
    TableDetermines(words.adjectives, s / 256, s' / 256);
    TableDetermines(words.nouns, s % 256, s' % 256);
    SlotAndTierDetermine(a, b, scrambled);
  }

  lemma TableDetermines(words: seq<string>, i: nat, j: nat)
    requires Table(words) && i < 256 && j < 256 && Lower(words[i]) == Lower(words[j])
    ensures i == j
  {
  }

  lemma SlotAndTierDetermine(a: int, b: int, scrambled: bool)
    requires a >= 1 && b >= 1 && Slot(a, scrambled) == Slot(b, scrambled) && Tier(a) == Tier(b)
    ensures a == b
  {
    ScrambleIsPermutation((a - 1) % SLOTS, (b - 1) % SLOTS);
  }

  lemma LowerSplit(u: string, v: string)
    ensures Lower(u + " " + v) == Lower(u) + " " + Lower(v)
  {
  }

  // ---- Every alias parses back ----------------------------------------------------------

  /** Every int64 ordinal's tier is a legal tier: at most 15 digits. */
  lemma TierFits(ordinal: int)
    requires 1 <= ordinal <= MAX_INT64
    ensures Tier(ordinal) > 1 ==> IsTier(Decimal(Tier(ordinal)))
  {
    var tier := Tier(ordinal);
    assert Pow10(5) == 100000 && Pow10(10) == 10000000000 && Pow10(15) == 1000000000000000;
    DecimalLength(tier, 15);
    DecimalValue(tier);
    if tier > 1 && |Decimal(tier)| == 1 {
      assert Decimal(tier)[..0] == [];
    }
  }

  /** The alias of every positive int64 ordinal, as a token, parses back to itself. */
  lemma AliasParses(words: Words, ordinal: int, scrambled: bool)
    requires words.Valid() && 1 <= ordinal <= MAX_INT64
    ensures var alias := Alias(words, ordinal, scrambled).value;
            IsAlias(alias) && ParseAliasToken("@{" + alias + "}") == Some(alias)
  {
    var alias := Alias(words, ordinal, scrambled).value;
    var slot := Slot(ordinal, scrambled);
    TierFits(ordinal);
    JoinedIsAlias(words.adjectives[slot / 256], words.nouns[slot % 256], Tier(ordinal));
    TokenParses(alias);
  }

  lemma TokenParses(alias: string)
    requires IsAlias(alias)
    ensures ParseAliasToken("@{" + alias + "}") == Some(alias)
  {
    var token := "@{" + alias + "}";
    assert token[2..|token| - 1] == alias && token[..2] == "@{";
  }

  lemma JoinedIsAlias(adj: string, noun: string, tier: nat)
    requires IsWord(adj) && IsWord(noun) && (tier > 1 ==> IsTier(Decimal(tier)))
    ensures IsAlias(adj + " " + noun + TierSuffix(tier))
  {
    var alias := adj + " " + noun + TierSuffix(tier);
    var i, j := |adj|, |adj| + 1 + |noun|;
    assert alias[..i] == adj && alias[i + 1..j] == noun;
    if tier > 1 {
      assert alias[j + 1..] == Decimal(tier);
    }
    assert SplitsAt(alias, i, j);
  }
}
