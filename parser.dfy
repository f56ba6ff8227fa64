/**
 * `parse_trading_signal`: every field is looked for on its own across the whole text;
 * a field whose pattern is not found stays absent, and only a captured number that
 * `float()` refuses makes the whole parse fail.
 */
module SignalParser {
  import opened Wrappers
  import opened Text
  import opened Patterns

  /** A row of the targets or stop-loss table. */
  datatype Level = Level(level: nat, price: real, percentage: real)

  /** The record the parser fills in; absent fields are `None`, the row lists keep text order. */
  datatype ParsedSignal = ParsedSignal(
    symbol: Option<string>,
    entry: Option<real>,
    volumeRank: Option<string>,
    riskLevel: Option<string>,
    targets: seq<Level>,
    stopLosses: seq<Level>)

  /** `re.search` of the pattern of `f` over the whole text. */
  function FirstMatch(f: Field, text: string): (r: Option<Match>)
    ensures r.Some? ==> GroupsShape(f, r.value.groups)
  {
    PatternSound(f, text);
    var r := Search(Pattern(f), text, 0);
    assert r.Some? ==> MatchedAt(f, text, r.value.start, MatchAt(f, text, r.value.start));
    r
  }

  /** `re.findall` of the pattern of `f` over the whole text. */
  function AllMatches(f: Field, text: string): (ms: seq<Match>)
    ensures forall i :: 0 <= i < |ms| ==> GroupsShape(f, ms[i].groups)
    ensures forall i, j :: 0 <= i < j < |ms| ==> ms[i].end <= ms[j].start
  {
    PatternSound(f, text);
    var ms := FindAll(Pattern(f), text, 0);
    assert forall i :: 0 <= i < |ms| ==> MatchedAt(f, text, ms[i].start, MatchAt(f, text, ms[i].start));
    ms
  }

  /**
   * The search result is the match at the leftmost position where the pattern matches,
   * and there is none exactly when the pattern matches nowhere in the text.
   */
  lemma FirstMatchIsLeftmost(f: Field, text: string)
    ensures var r := FirstMatch(f, text);
            r.Some? ==> r.value.start <= |text| && MatchAt(f, text, r.value.start) == r
                        && forall q :: 0 <= q < r.value.start ==> MatchAt(f, text, q).None?
    ensures FirstMatch(f, text).None? <==> forall q :: 0 <= q <= |text| ==> MatchAt(f, text, q).None?
  {
    PatternSound(f, text);
    SearchNoneIff(Pattern(f), text, 0);
    assert forall q :: Pattern(f)(text, q) == MatchAt(f, text, q);
  }

  /** Every element of `re.findall`'s list is a match of the pattern at its own start. */
  lemma AllMatchesAreMatches(f: Field, text: string)
    ensures var ms := AllMatches(f, text);
            forall i :: 0 <= i < |ms| ==> ms[i].start < ms[i].end <= |text| && MatchAt(f, text, ms[i].start) == Some(ms[i])
  {
    PatternSound(f, text);
  }

  /**
   * The longest digit string `int()` converts: CPython's default limit on integer
   * conversion from text (3.11 on, and the 3.7 to 3.10 security releases); a longer level raises `ValueError`.
   */
  const IntMaxStrDigits: nat := 4300

  /** The level of a matched row is within `int()`'s limit, and its price and percentage are literals `float()` accepts. */
  predicate RowConverts(m: Match) {
    RowGroups(m.groups) && |m.groups[0]| <= IntMaxStrDigits
    && IsFloatLiteral(m.groups[1]) && IsSignedFloatLiteral(m.groups[2])
  }

  predicate AllConvert(ms: seq<Match>) {
    forall i :: 0 <= i < |ms| ==> RowConverts(ms[i])
  }

  /** `{'level': int(..), 'price': float(..), 'percentage': float(..)}` of one matched row. */
  function LevelOf(m: Match): (l: Level)
    requires RowConverts(m)
    ensures l.price >= 0.0
    ensures m.groups[2][0] == '-' ==> l.percentage <= 0.0
    ensures m.groups[2][0] == '+' ==> l.percentage >= 0.0
  {
    Level(DigitsValue(m.groups[0]), DecimalValue(m.groups[1]), SignedValue(m.groups[2]))
  }

  /** One record per matched row, in the order of the matches. */
  function Levels(ms: seq<Match>): (ls: seq<Level>)
    requires AllConvert(ms)
    ensures |ls| == |ms|
  {
    seq(|ms|, i requires 0 <= i < |ms| => LevelOf(ms[i]))
  }

  /** The volume rank is stored as the two captured integers joined by a slash. */
  function RankText(m: Match): (r: string)
    requires GroupsShape(Volume, m.groups)
    ensures |r| == |m.groups[0]| + 1 + |m.groups[1]|
    ensures r[..|m.groups[0]|] == m.groups[0] && r[|m.groups[0]| + 1..] == m.groups[1]
    ensures forall i :: 0 <= i < |r| ==> (r[i] == '/' <==> i == |m.groups[0]|)
  {
    m.groups[0] + "/" + m.groups[1]
  }

  /** What `parse_trading_signal` returns for `text`: `None` exactly when some `float()` raises. */
  function ParseSpec(text: string): (r: Option<ParsedSignal>)
    ensures r.None? <==> (FirstMatch(Entry, text).Some? && !IsFloatLiteral(FirstMatch(Entry, text).value.groups[0]))
                         || !AllConvert(AllMatches(TargetRow, text)) || !AllConvert(AllMatches(StopLossRow, text))
    ensures r.Some? ==> |r.value.targets| == |AllMatches(TargetRow, text)|
                        && |r.value.stopLosses| == |AllMatches(StopLossRow, text)|
    ensures r.Some? && r.value.entry.Some? ==> r.value.entry.value >= 0.0
  {
    Assemble(FirstMatch(Symbol, text), FirstMatch(Entry, text), FirstMatch(Volume, text), FirstMatch(Risk, text),
             AllMatches(TargetRow, text), AllMatches(StopLossRow, text))
  }

  /** The record built from the six searches, or `None` when one of the captured numbers does not convert. */
  function Assemble(sym: Option<Match>, ent: Option<Match>, vol: Option<Match>, risk: Option<Match>,
                    tms: seq<Match>, sms: seq<Match>): Option<ParsedSignal>
    requires sym.Some? ==> GroupsShape(Symbol, sym.value.groups)
    requires ent.Some? ==> GroupsShape(Entry, ent.value.groups)
    requires vol.Some? ==> GroupsShape(Volume, vol.value.groups)
    requires risk.Some? ==> GroupsShape(Risk, risk.value.groups)
  {
    if (ent.Some? && !IsFloatLiteral(ent.value.groups[0])) || !AllConvert(tms) || !AllConvert(sms) then None
    else
      Some(ParsedSignal(
        if sym.Some? then Some(sym.value.groups[0]) else None,
        if ent.Some? then Some(DecimalValue(ent.value.groups[0])) else None,
        if vol.Some? then Some(RankText(vol.value)) else None,
        if risk.Some? then Some(Strip(risk.value.groups[0])) else None,
        Levels(tms),
        Levels(sms)))
  }

  /** The loop that appends one record per matched row; `None` when a row's number does not convert. */
  method ConvertRows(ms: seq<Match>) returns (r: Option<seq<Level>>)
    ensures r.Some? <==> AllConvert(ms)
    ensures r.Some? ==> |r.value| == |ms| && forall i :: 0 <= i < |ms| ==> r.value[i] == LevelOf(ms[i])
  {
    var rows: seq<Level> := [];
    var i := 0;
    while i < |ms|
      invariant 0 <= i <= |ms|
      invariant forall k :: 0 <= k < i ==> RowConverts(ms[k])
      invariant |rows| == i
      invariant forall k :: 0 <= k < i ==> rows[k] == LevelOf(ms[k])
    {
      if !RowConverts(ms[i]) {
        return None;
      }
      ConvertStep(ms, i, rows);
      rows := rows + [LevelOf(ms[i])];
      i := i + 1;
    }
    return Some(rows);
  }

  /** One more converted row keeps the records in step with the matches. */
  lemma ConvertStep(ms: seq<Match>, i: nat, rows: seq<Level>)
    requires i < |ms| && RowConverts(ms[i]) && |rows| == i
    requires forall k :: 0 <= k < i ==> RowConverts(ms[k])
    requires forall k :: 0 <= k < i ==> rows[k] == LevelOf(ms[k])
    ensures forall k :: 0 <= k < i + 1 ==> RowConverts(ms[k])
    ensures forall k :: 0 <= k < i + 1 ==> (rows + [LevelOf(ms[i])])[k] == LevelOf(ms[k])
  {
    var next := rows + [LevelOf(ms[i])];
    forall k | 0 <= k < i + 1
      ensures RowConverts(ms[k]) && next[k] == LevelOf(ms[k])
    {
      if k < i {
        assert next[k] == rows[k];
      }
    }
  }

  /** `parse_trading_signal`, field by field as the source fills its dictionary. */
  method ParseTradingSignal(text: string) returns (r: Option<ParsedSignal>)
    ensures r == ParseSpec(text)
  {
    var symbol: Option<string> := None;
    var entry: Option<real> := None;
    var volumeRank: Option<string> := None;
    var riskLevel: Option<string> := None;

    ghost var spec := Assemble(FirstMatch(Symbol, text), FirstMatch(Entry, text), FirstMatch(Volume, text),
                               FirstMatch(Risk, text), AllMatches(TargetRow, text), AllMatches(StopLossRow, text));
    assert spec == ParseSpec(text);
    var symbolMatch := FirstMatch(Symbol, text);
    if symbolMatch.Some? {
      symbol := Some(symbolMatch.value.groups[0]);
    }
    var entryMatch := FirstMatch(Entry, text);
    if entryMatch.Some? {
      if !IsFloatLiteral(entryMatch.value.groups[0]) {
        return None;
      }
      entry := Some(DecimalValue(entryMatch.value.groups[0]));
    }
    var volumeMatch := FirstMatch(Volume, text);
    if volumeMatch.Some? {
      volumeRank := Some(RankText(volumeMatch.value));
    }
    var riskMatch := FirstMatch(Risk, text);
    if riskMatch.Some? {
      riskLevel := Some(Strip(riskMatch.value.groups[0]));
    }
    var targetMatches := AllMatches(TargetRow, text);
    var targets := ConvertRows(targetMatches);
    if targets.None? {
      return None;
    }
    var stopLossMatches := AllMatches(StopLossRow, text);
    var stopLosses := ConvertRows(stopLossMatches);
    if stopLosses.None? {
      return None;
    }
    assert AllConvert(targetMatches) && AllConvert(stopLossMatches);
    assert targets.value == Levels(targetMatches);
    assert stopLosses.value == Levels(stopLossMatches);
    r := Some(ParsedSignal(symbol, entry, volumeRank, riskLevel, targets.value, stopLosses.value));
  }

  /** The check before a parse is kept: a result, a truthy (non-zero) entry and at least one target. */
  predicate Accepted(r: Option<ParsedSignal>) {
    r.Some? && r.value.entry.Some? && r.value.entry.value != 0.0 && |r.value.targets| > 0
  }

  /** The keyword that starts a row of field `f`. */
  function RowKeyword(f: Field): seq<char>
    requires f == TargetRow || f == StopLossRow
  {
    if f == TargetRow then TargetLabel else StopLossLabel
  }

  /** A keyword that begins with a letter which does not occur again in it. */
  predicate FirstLetterUnique(kw: seq<char>) {
    |kw| > 0 && IsLetter(kw[0]) && forall j :: 0 < j < |kw| ==> kw[j] != kw[0]
  }

  /**
   * No row match starts inside another: after its first character a row holds only
   * the rest of its keyword, white space, digits, dots, a sign and a percent sign.
   */
  lemma RowAtDoesNotNest(text: string, s: nat, q: nat, kw: seq<char>)
    requires FirstLetterUnique(kw)
    requires s < q <= |text| && RowAt(text, s, kw).Some? && q < RowAt(text, s, kw).value.end
    ensures RowAt(text, q, kw).None?
  {
    assert text[q] != kw[0] by {
      if q < s + |kw| {
        assert text[q] == text[s..s + |kw|][q - s];
      } else {
        assert !IsLetter(text[q]);
      }
    }
  }

  lemma KeywordsFirstLetterUnique()
    ensures FirstLetterUnique(TargetLabel) && FirstLetterUnique(StopLossLabel)
  {
  }

  lemma RowMatchesDoNotNest(f: Field, text: string, s: nat, q: nat)
    requires f == TargetRow || f == StopLossRow
    requires s < q <= |text| && MatchAt(f, text, s).Some? && q < MatchAt(f, text, s).value.end
    ensures MatchAt(f, text, q).None?
  {
    KeywordsFirstLetterUnique();
    RowAtDoesNotNest(text, s, q, RowKeyword(f));
  }

  /**
   * The rows `re.findall` returns start exactly at the positions where the row pattern
   * matches, in increasing order: each row in the text gives one record, none is
   * skipped, merged or reordered.
   */
  lemma RowMatchesAreRowPositions(f: Field, text: string)
    requires f == TargetRow || f == StopLossRow
    ensures var ms := AllMatches(f, text);
            (forall i, j :: 0 <= i < j < |ms| ==> ms[i].start < ms[j].start)
            && forall q :: 0 <= q <= |text| ==>
                 (MatchAt(f, text, q).Some? <==> exists i :: 0 <= i < |ms| && ms[i].start == q)
  {
    var ms := AllMatches(f, text);
    AllMatchesAreMatches(f, text);
    forall q | 0 <= q <= |text| && MatchAt(f, text, q).Some?
      ensures exists i :: 0 <= i < |ms| && ms[i].start == q
    {
      RowMatchFound(f, text, q);
    }
  }

  /** A position where the row pattern matches is the start of one of `re.findall`'s matches. */
  lemma RowMatchFound(f: Field, text: string, q: nat)
    requires f == TargetRow || f == StopLossRow
    requires q <= |text| && MatchAt(f, text, q).Some?
    ensures var ms := AllMatches(f, text);
            exists i :: 0 <= i < |ms| && ms[i].start == q
  {
    var ms := AllMatches(f, text);
    AllMatchesAreMatches(f, text);
    PatternSound(f, text);
    assert Pattern(f)(text, q).Some?;
    FindAllCovers(Pattern(f), text, 0, q);
    var i :| 0 <= i < |ms| && ms[i].start <= q < ms[i].end;
    if ms[i].start < q {
      RowMatchesDoNotNest(f, text, ms[i].start, q);
    }
  }

  /**
   * A field is present in a parsed signal exactly when its pattern matches somewhere in
   * the text: a missing field is left absent and does not stop the others.
   */
  lemma FieldPresentIffPatternFound(text: string)
    requires ParseSpec(text).Some?
    ensures var sig := ParseSpec(text).value;
            (sig.symbol.Some? <==> exists q :: 0 <= q <= |text| && MatchAt(Symbol, text, q).Some?)
            && (sig.entry.Some? <==> exists q :: 0 <= q <= |text| && MatchAt(Entry, text, q).Some?)
            && (sig.volumeRank.Some? <==> exists q :: 0 <= q <= |text| && MatchAt(Volume, text, q).Some?)
            && (sig.riskLevel.Some? <==> exists q :: 0 <= q <= |text| && MatchAt(Risk, text, q).Some?)
  {
    FirstMatchIsLeftmost(Symbol, text);
    FirstMatchIsLeftmost(Entry, text);
    FirstMatchIsLeftmost(Volume, text);
    FirstMatchIsLeftmost(Risk, text);
  }

  /**
   * The target and stop-loss lists hold one record per row match, in text order, each
   * filled from its own pattern only.
   */
  lemma ParsedRowsFollowText(text: string)
    requires ParseSpec(text).Some?
    ensures var sig := ParseSpec(text).value;
            var tms := AllMatches(TargetRow, text);
            var sms := AllMatches(StopLossRow, text);
            |sig.targets| == |tms| && (forall i :: 0 <= i < |tms| ==> sig.targets[i] == LevelOf(tms[i]))
            && |sig.stopLosses| == |sms| && (forall i :: 0 <= i < |sms| ==> sig.stopLosses[i] == LevelOf(sms[i]))
            && (forall i, j :: 0 <= i < j < |tms| ==> tms[i].start < tms[j].start)
            && (forall i, j :: 0 <= i < j < |sms| ==> sms[i].start < sms[j].start)
            && (forall q :: 0 <= q <= |text| ==>
                  (MatchAt(TargetRow, text, q).Some? <==> exists i :: 0 <= i < |tms| && tms[i].start == q))
            && (forall q :: 0 <= q <= |text| ==>
                  (MatchAt(StopLossRow, text, q).Some? <==> exists i :: 0 <= i < |sms| && sms[i].start == q))
  {
    RowMatchesAreRowPositions(TargetRow, text);
    RowMatchesAreRowPositions(StopLossRow, text);
  }

  /**
   * A parse is accepted exactly when it succeeded, the entry literal has a digit other
   * than zero and at least one target row matched; the accepted entry is then positive.
   */
  lemma AcceptedIff(text: string)
    ensures Accepted(ParseSpec(text)) <==>
              ParseSpec(text).Some? && FirstMatch(Entry, text).Some?
              && !AllZero(FirstMatch(Entry, text).value.groups[0])
              && |AllMatches(TargetRow, text)| > 0
    ensures Accepted(ParseSpec(text)) ==> ParseSpec(text).value.entry.value > 0.0
  {
  }

  /** `Entry:`, white space up to `b`, then digits and dots up to `c`: the entry pattern captures `text[b..c]`. */
  lemma EntryAtLiteral(text: string, p: nat, b: nat, c: nat)
    requires HasAt(text, p, EntryLabel) && p + |EntryLabel| <= b < c <= |text|
    requires forall i :: p + |EntryLabel| <= i < b ==> IsSpace(text[i])
    requires forall i :: b <= i < c ==> InClass(text[i], DigitOrDot)
    requires c == |text| || !InClass(text[c], DigitOrDot)
    ensures MatchAt(Entry, text, p) == Some(Match(p, c, [text[b..c]]))
  {
    SkipExact(text, p + |EntryLabel|, b, Space);
    SkipExact(text, b, c, DigitOrDot);
  }

  /** The parsed entry is the value of the literal the first entry match captured. */
  lemma ParsedEntryIsFirstLiteral(text: string)
    requires ParseSpec(text).Some? && FirstMatch(Entry, text).Some?
    ensures IsFloatLiteral(FirstMatch(Entry, text).value.groups[0])
    ensures ParseSpec(text).value.entry == Some(DecimalValue(FirstMatch(Entry, text).value.groups[0]))
  {
  }

  /** When no `Entry:` label comes earlier, the first entry match is the one at `p`. */
  lemma FirstEntryAt(text: string, p: nat, b: nat, c: nat)
    requires forall q :: 0 <= q < p ==> !HasAt(text, q, EntryLabel)
    requires HasAt(text, p, EntryLabel) && p + |EntryLabel| <= b < c <= |text|
    requires forall i :: p + |EntryLabel| <= i < b ==> IsSpace(text[i])
    requires forall i :: b <= i < c ==> InClass(text[i], DigitOrDot)
    requires c == |text| || !InClass(text[c], DigitOrDot)
    ensures FirstMatch(Entry, text) == Some(Match(p, c, [text[b..c]]))
  {
    EntryAtLiteral(text, p, b, c);
    forall q | 0 <= q < p
      ensures MatchAt(Entry, text, q).None?
    {
      assert MatchAt(Entry, text, q) == EntryAt(text, q);
    }
    FirstMatchIsLeftmost(Entry, text);
  }

  /** The first entry match of a text laid out as `pre`, `Entry:`, white space, a literal and the rest. */
  lemma FirstEntryMatch(pre: string, gap: string, lit: string, post: string)
    requires forall q :: 0 <= q < |pre| ==> !HasAt(pre + EntryLabel + gap + lit + post, q, EntryLabel)
    requires AllIn(gap, Space) && Run(lit, DigitOrDot)
    requires post == [] || !InClass(post[0], DigitOrDot)
    ensures var text := pre + EntryLabel + gap + lit + post;
            FirstMatch(Entry, text).Some? && FirstMatch(Entry, text).value.groups == [lit]
  {
    var text := pre + EntryLabel + gap + lit + post;
    var a := |pre| + |EntryLabel|;
    var b := a + |gap|;
    var c := b + |lit|;
    assert text[|pre|..a] == EntryLabel;
    assert forall i :: a <= i < b ==> text[i] == gap[i - a];
    assert forall i :: b <= i < c ==> text[i] == lit[i - b];
    assert c < |text| ==> text[c] == post[0];
    assert text[b..c] == lit;
    FirstEntryAt(text, |pre|, b, c);
  }

  /**
   * The entry is recovered exactly as the decimal literal written after the first
   * `Entry:` label.
   */
  lemma EntryLiteralRecovered(pre: string, gap: string, lit: string, post: string)
    requires forall q :: 0 <= q < |pre| ==> !HasAt(pre + EntryLabel + gap + lit + post, q, EntryLabel)
    requires AllIn(gap, Space) && IsFloatLiteral(lit)
    requires post == [] || !InClass(post[0], DigitOrDot)
    ensures var text := pre + EntryLabel + gap + lit + post;
            ParseSpec(text).Some? ==> ParseSpec(text).value.entry == Some(DecimalValue(lit))
  {
    var text := pre + EntryLabel + gap + lit + post;
    assert lit != [] by {
      assert DigitCount(lit) >= 1;
    }
    FirstEntryMatch(pre, gap, lit, post);
    if ParseSpec(text).Some? {
      ParsedEntryIsFirstLiteral(text);
    }
  }
}
