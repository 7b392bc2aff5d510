/** Cross-reference tokens in message text (internal/identity/alias.go:78-105) and their
    rewriting (internal/transport/references.go:11-45). */
module AliasTokens {
  import opened Wrappers
  import opened AliasNames
  import opened Splice

  datatype Span = Span(begin: nat, end: nat)

  // ---- What a reference is ----------------------------------------------------------------

  predicate OpensAt(text: string, k: nat) {
    k + 2 <= |text| && text[k] == '@' && text[k + 1] == '{'
  }

  /** Every "@{" before b has its closing brace before b. */
  ghost predicate Unnested(text: string, b: nat)
    requires b <= |text|
  {
    forall k: nat | k < b && OpensAt(text, k) :: exists c :: k < c < b && text[c] == '}'
  }

  /** The maximal run of backslashes ending just before b. */
  function Backslashes(text: string, b: nat): nat
    requires b <= |text|
  {
    if b > 0 && text[b - 1] == '\\' then 1 + Backslashes(text, b - 1) else 0
  }

  /** A whole, unescaped, unnested reference. */
  ghost predicate IsReference(text: string, s: Span) {
    && s.begin < s.end <= |text| && ParseAliasToken(text[s.begin..s.end]).Some?
    && Backslashes(text, s.begin) % 2 == 0 && Unnested(text, s.begin)
  }

  predicate InOrder(spans: seq<Span>) {
    forall i, j :: 0 <= i < j < |spans| ==> spans[i].end <= spans[j].begin
  }

  /** The references of a text, all of them, in order and disjoint. */
  ghost predicate References(text: string, spans: seq<Span>) {
    InOrder(spans) && forall s :: s in spans <==> IsReference(text, s)
  }

  // ---- Scanning ---------------------------------------------------------------------------

  /** strings.Index(text[start:], "@{"), as a position of text */
  method FindOpening(text: string, start: nat) returns (at: Option<nat>)
    requires start <= |text|
    ensures at.None? ==> forall k | start <= k < |text| :: !OpensAt(text, k)
    ensures at.Some? ==> start <= at.value && OpensAt(text, at.value)
    ensures at.Some? ==> forall k | start <= k < at.value :: !OpensAt(text, k)
  {
    for i := start to |text|
      invariant forall k | start <= k < i :: !OpensAt(text, k)
    {
      if OpensAt(text, i) {
        return Some(i);
      }
    }
    return None;
  }

  /** No closing brace at the positions from .. to - 1. */
  predicate Braceless(text: string, from: nat, to: nat)
    requires to <= |text|
  {
    forall k | from <= k < to :: text[k] != '}'
  }

  /** strings.IndexByte(text[start:], '}'), as a position of text */
  method FindClosing(text: string, start: nat) returns (at: Option<nat>)
    requires start <= |text|
    ensures at.None? ==> Braceless(text, start, |text|)
    ensures at.Some? ==> start <= at.value < |text| && text[at.value] == '}' && Braceless(text, start, at.value)
  {
    for i := start to |text|
      invariant Braceless(text, start, i)
    {
      if text[i] == '}' {
        return Some(i);
      }
    }
    return None;
  }

  method CountBackslashes(text: string, b: nat) returns (count: nat)
    requires b <= |text|
    ensures count == Backslashes(text, b)
  {
    count := 0;
    while b - 1 - count >= 0 && text[b - 1 - count] == '\\'
      invariant count <= b && count + Backslashes(text, b - count) == Backslashes(text, b)
    {
      count := count + 1;
    }
  }

  /** An alias holds none of the characters that delimit a token. */
  lemma AliasIsPlain(s: string)
    requires IsAlias(s)
    ensures '}' !in s && '@' !in s && '{' !in s
  {
    var i, j :| 0 <= i < j <= |s| && SplitsAt(s, i, j);
    forall k | 0 <= k < |s|
      ensures s[k] == ' ' || IsLetter(s[k]) || IsDigit(s[k])
    {
      if k < i {
        assert s[k] in s[..i];
      } else if i < k < j {
        assert s[i + 1..j][k - i - 1] == s[k];
      } else if j < k {
        assert s[j + 1..][k - j - 1] == s[k];
      }
    }
  }

  /** A token's only closing brace is its last character. */
  lemma TokenShape(text: string, b: nat, e: nat)
    requires b < e <= |text| && ParseAliasToken(text[b..e]).Some?
    ensures b + 3 <= e && OpensAt(text, b) && text[e - 1] == '}'
    ensures Braceless(text, b, e - 1)
  {
    var token := text[b..e];
    var alias := token[2..|token| - 1];
    AliasIsPlain(alias);
    assert token[..2][0] == '@' && token[..2][1] == '{';
    forall k | b <= k < e - 1
      ensures text[k] != '}'
    {
      if k >= b + 2 {
        assert token[k - b] == text[k];
        assert alias[k - b - 2] == token[k - b];
        assert token[k - b] in alias;
      }
    }
  }

  /** Between start and the brace that closes the first opening there is at most one
      reference: that opening with that brace. */
  lemma FirstReference(text: string, start: nat, begin: nat, close: nat, s: Span)
    requires start <= begin <= close < |text| && OpensAt(text, begin) && text[close] == '}'
    requires forall k | start <= k < begin :: !OpensAt(text, k)
    requires Braceless(text, begin, close)
    requires IsReference(text, s) && start <= s.begin <= close
    ensures s == Span(begin, close + 1)
  {
    TokenShape(text, s.begin, s.end);
    assert s.begin <= begin;
  }

  /** Everything the scan has passed is closed. */
  predicate Resumed(text: string, start: nat) {
    start <= |text| && (start == 0 || text[start - 1] == '}')
  }

  lemma FirstIsUnnested(text: string, start: nat, begin: nat)
    requires Resumed(text, start) && start <= begin < |text|
    requires forall k | start <= k < begin :: !OpensAt(text, k)
    ensures Unnested(text, begin)
  {
    forall k: nat | k < begin && OpensAt(text, k)
      ensures exists c :: k < c < begin && text[c] == '}'
    {
      assert k < start - 1 < begin && text[start - 1] == '}';
    }
  }

  /** The scan has found exactly the references that begin before start. */
  ghost predicate FoundBefore(text: string, start: nat, spans: seq<Span>) {
    && InOrder(spans)
    && (forall s <- spans :: s.end <= start && IsReference(text, s))
    && forall s :: IsReference(text, s) && s.begin < start ==> s in spans
  }

  /** Once no opening, or no closing brace, is left, the scan is complete. */
  lemma NothingLeft(text: string, start: nat, begin: nat, spans: seq<Span>)
    requires start <= begin <= |text| && FoundBefore(text, start, spans)
    requires forall k | start <= k < begin :: !OpensAt(text, k)
    requires Braceless(text, begin, |text|)
    ensures References(text, spans)
  {
    forall s | IsReference(text, s)
      ensures s.begin < start
    {
      TokenShape(text, s.begin, s.end);
    }
  }

  /** Between start and close there is no reference but this span, if it is one. */
  ghost predicate OnlyHere(text: string, start: nat, close: nat, span: Span) {
    && start <= span.begin < span.end == close + 1
    && forall s :: IsReference(text, s) && start <= s.begin <= close ==> s == span
  }

  lemma ScannedReference(text: string, start: nat, close: nat, span: Span, before: seq<Span>)
    requires FoundBefore(text, start, before) && OnlyHere(text, start, close, span) && IsReference(text, span)
    ensures FoundBefore(text, close + 1, before + [span])
  {
    var spans := before + [span];
    assert spans[|before|] == span;
    assert forall s <- before :: s.end <= start;
    forall i | 0 <= i < |before|
      ensures spans[i] == before[i] && before[i].end <= start
    {
      assert before[i] in before;
    }
  }

  lemma ScannedNothing(text: string, start: nat, close: nat, span: Span, before: seq<Span>)
    requires FoundBefore(text, start, before) && OnlyHere(text, start, close, span) && !IsReference(text, span)
    ensures FoundBefore(text, close + 1, before)
  {
  }

  /** Find and examine the next "@{...}" from start; None when there is none left. */
  method ScanOne(text: string, start: nat, before: seq<Span>) returns (end: Option<nat>, spans: seq<Span>)
    requires Resumed(text, start) && FoundBefore(text, start, before)
    ensures end.None? ==> References(text, spans)
    ensures end.Some? ==> start < end.value && Resumed(text, end.value) && FoundBefore(text, end.value, spans)
  {
    var opening := FindOpening(text, start);
    if opening.None? {
      NothingLeft(text, start, |text|, before);
      return None, before;
    }
    var begin := opening.value;
    var closing := FindClosing(text, begin);
    if closing.None? {
      NothingLeft(text, start, begin, before);
      return None, before;
    }
    var close := closing.value;
    var span := Span(begin, close + 1);
    var reference := Examine(text, start, span);
    forall s | IsReference(text, s) && start <= s.begin <= close
      ensures s == span
    {
      FirstReference(text, start, begin, close, s);
    }
    if reference {
      ScannedReference(text, start, close, span, before);
      spans := before + [span];
    } else {
      ScannedNothing(text, start, close, span, before);
      spans := before;
    }
    return Some(close + 1), spans;
  }

  method Examine(text: string, ghost start: nat, span: Span) returns (reference: bool)
    requires Resumed(text, start) && start <= span.begin < span.end <= |text|
    requires forall k | start <= k < span.begin :: !OpensAt(text, k)
    ensures reference <==> IsReference(text, span)
  {
    FirstIsUnnested(text, start, span.begin);
    if ParseAliasToken(text[span.begin..span.end]).None? {
      return false;
    }
    var count := CountBackslashes(text, span.begin);
    return count % 2 == 0;
  }

  /** AliasTokenSpans returns the references of the text, in order. */
  method AliasTokenSpans(text: string) returns (spans: seq<Span>)
    ensures References(text, spans)
  {
    spans := [];
    var start := 0;
    while start < |text|
      invariant Resumed(text, start) && FoundBefore(text, start, spans)
    {
      var end;
      end, spans := ScanOne(text, start, spans);
      if end.None? {
        return;
      }
      start := end.value;
    }
    NothingLeft(text, start, |text|, spans);
  }

  // ---- Rewriting --------------------------------------------------------------------------

  datatype CrossReference = CrossReference(token: string, actorID: string, alias: string, name: string)

  /** What the platform callback answers: the native mention, and whether it may be used. */
  datatype Native = Native(mention: string, ok: bool)

  /** The last reference for a token decides, if it names both the token and an actor. */
  predicate Authorizes(refs: seq<CrossReference>, i: nat, token: string)
    requires i < |refs|
  {
    && refs[i].token == token && Usable(refs[i])
    && forall j | i < j < |refs| :: refs[j].token == token ==> !Usable(refs[j])
  }

  predicate Usable(ref: CrossReference) {
    ref.token != "" && ref.actorID != ""
  }

  /** The table holds, for each token, the reference that authorizes it. */
  predicate IsAuthorized(refs: seq<CrossReference>, table: map<string, CrossReference>) {
    && (forall token <- table :: exists i | 0 <= i < |refs| :: Authorizes(refs, i, token) && table[token] == refs[i])
    && forall i | 0 <= i < |refs| :: Usable(refs[i]) ==> refs[i].token in table
  }

  method Authorize(refs: seq<CrossReference>) returns (table: map<string, CrossReference>)
    ensures IsAuthorized(refs, table)
  {
    table := map[];
    for k := 0 to |refs|
      invariant IsAuthorized(refs[..k], table)
    {
      ghost var before := table;
      if Usable(refs[k]) {
        table := table[refs[k].token := refs[k]];
      }
      AuthorizedOneMore(refs[..k], refs[k], before, table);
      assert refs[..k] + [refs[k]] == refs[..k + 1];
    }
    assert refs[..|refs|] == refs;
  }

  lemma AuthorizedOneMore(refs: seq<CrossReference>, ref: CrossReference, before: map<string, CrossReference>,
        table: map<string, CrossReference>)
    requires IsAuthorized(refs, before)
    requires table == if Usable(ref) then before[ref.token := ref] else before
    ensures IsAuthorized(refs + [ref], table)
  {
    var all := refs + [ref];
    forall token | token in table
      ensures exists i | 0 <= i < |all| :: Authorizes(all, i, token) && table[token] == all[i]
    {
      if Usable(ref) && token == ref.token {
        assert Authorizes(all, |refs|, token);
      } else {
        var i :| 0 <= i < |refs| && Authorizes(refs, i, token) && before[token] == refs[i];
        assert Authorizes(all, i, token);
      }
    }
  }

  /** The replacement of a span, if its token is authorized and the callback accepts it. */
  function Replacement(text: string, s: Span, table: map<string, CrossReference>,
        native: CrossReference -> Native): Option<string>
    requires s.begin <= s.end <= |text|
  {
    var token := text[s.begin..s.end];
    if token !in table then None
    else
      var answer := native(table[token]);
      if answer.ok && answer.mention != "" then Some(answer.mention) else None
  }

  predicate Within(text: string, from: nat, spans: seq<Span>) {
    from <= |text| && InOrder(spans) && forall s <- spans :: from <= s.begin < s.end <= |text|
  }

  /** The edits the accepted spans call for. */
  function Edits(text: string, spans: seq<Span>, table: map<string, CrossReference>,
        native: CrossReference -> Native): seq<Edit<char>>
    requires Within(text, 0, spans)
    decreases |spans|
  {
    if spans == [] then []
    else
      assert spans[0] in spans;
      var rest := Edits(text, spans[1..], table, native);
      match Replacement(text, spans[0], table, native)
      case Some(mention) => [Edit(spans[0].begin, spans[0].end, mention)] + rest
      case None => rest
  }

  lemma {:induction false} EditsOrdered(text: string, from: nat, spans: seq<Span>, table: map<string,
        CrossReference>, native: CrossReference -> Native)
    requires Within(text, from, spans)
    ensures Ordered(Edits(text, spans, table, native), from, |text|)
    decreases |spans|
  {
    if spans != [] {
      assert spans[0] in spans;
      EditsOrdered(text, spans[0].end, spans[1..], table, native);
      SpliceFromEarlier(text, from, spans[0].end, Edits(text, spans[1..], table, native));
    }
  }

  lemma {:induction false} EditsMembers(text: string, spans: seq<Span>, table: map<string, CrossReference>,
        native: CrossReference -> Native, e: Edit<char>)
    requires Within(text, 0, spans)
    ensures e in Edits(text, spans, table, native) <==>
            Span(e.begin, e.end) in spans && Replacement(text, Span(e.begin, e.end), table, native) == Some(e.put)
    decreases |spans|
  {
    if spans != [] {
      assert spans[0] in spans;
      EditsMembers(text, spans[1..], table, native, e);
      assert spans == [spans[0]] + spans[1..];
    }
  }

  /** An authorized reference that the callback accepts, with the mention it is given. */
  ghost predicate Accepted(text: string, refs: seq<CrossReference>, native: CrossReference -> Native, e: Edit<char>) {
    && IsReference(text, Span(e.begin, e.end))
    && exists i | 0 <= i < |refs| ::
         Authorizes(refs, i, text[e.begin..e.end]) && native(refs[i]) == Native(e.put, true) && e.put != ""
  }

  /** The text with exactly the accepted references replaced. */
  ghost predicate IsRewrite(text: string, refs: seq<CrossReference>, native: CrossReference -> Native, result: string) {
    exists edits | Ordered(edits, 0, |text|) ::
      result == Spliced(text, edits) && forall e :: e in edits <==> Accepted(text, refs, native, e)
  }

  lemma EditsAreAccepted(text: string, refs: seq<CrossReference>, spans: seq<Span>, table: map<string,
        CrossReference>, native: CrossReference -> Native)
    requires References(text, spans) && IsAuthorized(refs, table)
    ensures Within(text, 0, spans)
    ensures Ordered(Edits(text, spans, table, native), 0, |text|)
    ensures IsRewrite(text, refs, native, Spliced(text, Edits(text, spans, table, native)))
  {
    var edits := Edits(text, spans, table, native);
    EditsOrdered(text, 0, spans, table, native);
    forall e
      ensures e in edits <==> Accepted(text, refs, native, e)
    {
      EditsMembers(text, spans, table, native, e);
      var s := Span(e.begin, e.end);
      if s in spans {
        TableAuthorizes(refs, table, text[s.begin..s.end]);
      }
    }
  }

  lemma TableAuthorizes(refs: seq<CrossReference>, table: map<string, CrossReference>, token: string)
    requires IsAuthorized(refs, table)
    ensures forall i | 0 <= i < |refs| :: Authorizes(refs, i, token) ==> token in table && table[token] == refs[i]
    ensures token in table ==> exists i | 0 <= i < |refs| :: Authorizes(refs, i, token)
  {
    forall i | 0 <= i < |refs| && Authorizes(refs, i, token)
      ensures token in table && table[token] == refs[i]
    {
      var j :| 0 <= j < |refs| && Authorizes(refs, j, token) && table[token] == refs[j];
      assert i == j;
    }
  }

  /** What is still to be written once the text before `last` has been dealt with. */
  ghost function ToWrite(text: string, last: nat, spans: seq<Span>, table: map<string, CrossReference>,
        native: CrossReference -> Native): string
    requires Within(text, last, spans)
  {
    EditsOrdered(text, last, spans, table, native);
    SpliceFrom(text, last, Edits(text, spans, table, native))
  }

  lemma WriteOne(text: string, last: nat, spans: seq<Span>, table: map<string, CrossReference>,
        native: CrossReference -> Native)
    requires Within(text, last, spans) && spans != []
    ensures last <= spans[0].begin < spans[0].end <= |text|
    ensures Within(text, last, spans[1..]) && Within(text, spans[0].end, spans[1..])
    ensures ToWrite(text, last, spans, table, native) ==
            match Replacement(text, spans[0], table, native)
            case Some(mention) =>
              text[last..spans[0].begin] + mention + ToWrite(text, spans[0].end, spans[1..], table, native)
            case None => ToWrite(text, last, spans[1..], table, native)
  {
    assert spans[0] in spans;
    assert forall s <- spans[1..] :: s in spans;
  }

  lemma Regroup(a: string, b: string, c: string, d: string)
    ensures a + (b + c + d) == a + b + c + d
  {
  }

  method WriteSpans(text: string, spans: seq<Span>, table: map<string, CrossReference>,
        native: CrossReference -> Native)
      returns (result: string)
    requires Within(text, 0, spans)
    ensures result == ToWrite(text, 0, spans, table, native)
  {
    var last: nat := 0;
    result := "";
    ghost var goal, rest := ToWrite(text, 0, spans, table, native), spans;
    for i := 0 to |spans|
      invariant rest == spans[i..] && Within(text, last, rest)
      invariant result + ToWrite(text, last, rest, table, native) == goal
      invariant last == 0 ==> result == ""
    {
      WriteOne(text, last, rest, table, native);
      var replacement := Replacement(text, spans[i], table, native);
      ghost var next := rest[1..];
      if replacement.Some? {
        Regroup(result, text[last..spans[i].begin], replacement.value,
                ToWrite(text, spans[i].end, next, table, native));
        result := result + text[last..spans[i].begin] + replacement.value;
        last := spans[i].end;
      }
      rest := next;
    }
    assert spans[|spans|..] == [];
    if last == 0 {
      return text;
    }
    result := result + text[last..];
  }

  /** RewriteCrossReferences; a missing callback leaves the text alone. */
  method RewriteCrossReferences(text: string, refs: seq<CrossReference>, native: Option<CrossReference -> Native>)
      returns (result: string)
    ensures native.None? ==> result == text
    ensures native.Some? ==> IsRewrite(text, refs, native.value, result)
  {
    if native.None? {
      return text;
    }
    if |refs| == 0 {
      NoReferences(text, native.value);
      return text;
    }
    var table := Authorize(refs);
    var spans := AliasTokenSpans(text);
    EditsAreAccepted(text, refs, spans, table, native.value);
    result := WriteSpans(text, spans, table, native.value);
  }

  lemma NoReferences(text: string, native: CrossReference -> Native)
    ensures IsRewrite(text, [], native, text)
  {
    var edits: seq<Edit<char>> := [];
    assert Ordered(edits, 0, |text|) && Spliced(text, edits) == text;
    assert forall e :: e in edits <==> Accepted(text, [], native, e);
  }

  // ---- What rewriting promises ------------------------------------------------------------

  /** There is only one such text. */
  lemma RewriteIsUnique(text: string, refs: seq<CrossReference>, native: CrossReference -> Native, a: string, b: string)
    requires IsRewrite(text, refs, native, a) && IsRewrite(text, refs, native, b)
    ensures a == b
  {
    var x :| Ordered(x, 0, |text|) && a == Spliced(text, x) && forall e :: e in x <==> Accepted(text, refs, native, e);
    var y :| Ordered(y, 0, |text|) && b == Spliced(text, y) && forall e :: e in y <==> Accepted(text, refs, native, e);
    OrderedEditsEqual(x, y, 0, |text|);
  }

  /** Every byte outside the accepted references survives, in order, and each accepted
      reference becomes its mention. */
  lemma RewriteKeepsTheRest(text: string, refs: seq<CrossReference>, native: CrossReference -> Native,
        result: string)
      returns (edits: seq<Edit<char>>)
    requires IsRewrite(text, refs, native, result)
    ensures Ordered(edits, 0, |text|) && forall e :: e in edits <==> Accepted(text, refs, native, e)
    ensures SurvivorsInOrder(text, edits, result) && Placed(edits, result)
    ensures |result| == |text| - Removed(edits) + Inserted(edits)
  {
    edits :| Ordered(edits, 0, |text|) && result == Spliced(text, edits)
             && forall e :: e in edits <==> Accepted(text, refs, native, e);
    SplicedMeaning(text, edits);
  }
}
