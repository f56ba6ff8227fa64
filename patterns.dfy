/**
 * The six regular expressions of the signal parser, each written out as a matcher
 * that tries one start position, and the two ways the parser applies them: the
 * leftmost match anywhere in the text (`re.search`) and every non-overlapping match
 * from left to right (`re.findall`).
 */
module Patterns {
  import opened Wrappers
  import opened Text

  /** One pattern per extracted field. */
  datatype Field = Symbol | Entry | Volume | Risk | TargetRow | StopLossRow

  /** A match occupying `text[start..end]`, with the text of its capture groups. */
  datatype Match = Match(start: nat, end: nat, groups: seq<seq<char>>)

  const CallLabel: seq<char> := "CALL:"
  const EntryLabel: seq<char> := "Entry:"
  const VolumeLabel: seq<char> := "Volume"
  const RankedLabel: seq<char> := "Ranked:"
  const OrdinalSlash: seq<char> := "th/"
  const RiskLabel: seq<char> := "Risk Level:"
  const TargetLabel: seq<char> := "Target"
  const StopLossLabel: seq<char> := "Stop Loss"

  /** A non-empty run of class `k`. */
  predicate Run(s: seq<char>, k: CharClass) {
    |s| > 0 && AllIn(s, k)
  }

  /** The groups of a table row: an integer level, a price and a signed percentage. */
  predicate RowGroups(g: seq<seq<char>>) {
    |g| == 3 && Run(g[0], Digit) && Run(g[1], DigitOrDot)
    && |g[2]| >= 2 && (g[2][0] == '+' || g[2][0] == '-') && AllIn(g[2][1..], DigitOrDot)
  }

  /** What each pattern's capture groups can hold. */
  predicate GroupsShape(f: Field, g: seq<seq<char>>) {
    match f
    case Symbol => |g| == 1 && Run(g[0], Word)
    case Entry => |g| == 1 && Run(g[0], DigitOrDot)
    case Volume => |g| == 2 && Run(g[0], Digit) && Run(g[1], Digit)
    case Risk => |g| == 1 && Run(g[0], NotNewline)
    case TargetRow => RowGroups(g)
    case StopLossRow => RowGroups(g)
  }

  /** A match found by trying position `p`: it starts there, is not empty and stays inside the text. */
  predicate MatchedAt(f: Field, text: seq<char>, p: nat, m: Option<Match>) {
    m.Some? ==> m.value.start == p && p < m.value.end <= |text| && GroupsShape(f, m.value.groups)
  }

  /** `CALL:\s*(\w+)` tried at `p`. */
  function SymbolAt(text: seq<char>, p: nat): (m: Option<Match>)
    requires p <= |text|
    ensures MatchedAt(Symbol, text, p, m)
    ensures m.Some? <==> HasAt(text, p, CallLabel)
                         && Skip(text, Skip(text, p + |CallLabel|, Space), Word) > Skip(text, p + |CallLabel|, Space)
    ensures m.Some? ==> var q := Skip(text, p + |CallLabel|, Space);
                        var e := Skip(text, q, Word);
                        m.value == Match(p, e, [text[q..e]])
  {
    if !HasAt(text, p, CallLabel) then None
    else
      var q := Skip(text, p + |CallLabel|, Space);
      var e := Skip(text, q, Word);
      if e == q then None else Some(Match(p, e, [text[q..e]]))
  }

  /** `Entry:\s*([\d.]+)` tried at `p`. */
  function EntryAt(text: seq<char>, p: nat): (m: Option<Match>)
    requires p <= |text|
    ensures MatchedAt(Entry, text, p, m)
    ensures m.Some? <==> HasAt(text, p, EntryLabel)
                         && Skip(text, Skip(text, p + |EntryLabel|, Space), DigitOrDot) > Skip(text, p + |EntryLabel|, Space)
    ensures m.Some? ==> var q := Skip(text, p + |EntryLabel|, Space);
                        var e := Skip(text, q, DigitOrDot);
                        m.value == Match(p, e, [text[q..e]])
  {
    if !HasAt(text, p, EntryLabel) then None
    else
      var q := Skip(text, p + |EntryLabel|, Space);
      var e := Skip(text, q, DigitOrDot);
      if e == q then None else Some(Match(p, e, [text[q..e]]))
  }

  /** `Ranked:\s*(\d+)th/(\d+)` tried at `j`, the tail of the volume pattern. */
  function RankedAt(text: seq<char>, j: nat): (m: Option<Match>)
    requires j <= |text|
    ensures MatchedAt(Volume, text, j, m)
    ensures m.Some? <==> HasAt(text, j, RankedLabel)
                         && var a := Skip(text, j + |RankedLabel|, Space);
                            var b := Skip(text, a, Digit);
                            a < b && HasAt(text, b, OrdinalSlash)
                            && Skip(text, b + |OrdinalSlash|, Digit) > b + |OrdinalSlash|
    ensures m.Some? ==> var a := Skip(text, j + |RankedLabel|, Space);
                        var b := Skip(text, a, Digit);
                        var c := Skip(text, b + |OrdinalSlash|, Digit);
                        m.value == Match(j, c, [text[a..b], text[b + |OrdinalSlash|..c]])
  {
    if !HasAt(text, j, RankedLabel) then None
    else
      var a := Skip(text, j + |RankedLabel|, Space);
      var b := Skip(text, a, Digit);
      if b == a || !HasAt(text, b, OrdinalSlash) then None
      else
        var c := Skip(text, b + |OrdinalSlash|, Digit);
        if c == b + |OrdinalSlash| then None
        else Some(Match(j, c, [text[a..b], text[b + |OrdinalSlash|..c]]))
  }

  /** The `Ranked:` tail as a matcher over the whole text. */
  function RankedTail(): Matcher {
    (t: seq<char>, j: nat) => if j <= |t| then RankedAt(t, j) else None
  }

  /**
   * The greedy `.*` of `Volume.*Ranked:` backs off from the end of the line, so the
   * tail that wins is the last position in `[lo, hi]` where it matches.
   */
  function LastRanked(text: seq<char>, lo: nat, hi: nat): (m: Option<Match>)
    requires lo <= hi <= |text|
    ensures m.Some? ==> lo <= m.value.start <= hi && RankedAt(text, m.value.start) == m
    ensures m.Some? ==> forall j :: m.value.start < j <= hi ==> RankedAt(text, j).None?
    ensures m.None? ==> forall j :: lo <= j <= hi ==> RankedAt(text, j).None?
  {
    var at := SearchBack(RankedTail(), text, lo, hi);
    assert forall j :: lo <= j <= hi ==> RankedTail()(text, j) == RankedAt(text, j);
    if at.None? then None else RankedAt(text, at.value)
  }

  /** `Volume.*Ranked:\s*(\d+)th/(\d+)` tried at `p`; `.` does not cross a newline. */
  function VolumeAt(text: seq<char>, p: nat): (m: Option<Match>)
    requires p <= |text|
    ensures MatchedAt(Volume, text, p, m)
    ensures m.Some? <==> HasAt(text, p, VolumeLabel)
                         && exists j :: p + |VolumeLabel| <= j <= Skip(text, p + |VolumeLabel|, NotNewline)
                                        && RankedAt(text, j).Some?
    ensures m.Some? ==> var t := LastRanked(text, p + |VolumeLabel|, Skip(text, p + |VolumeLabel|, NotNewline));
                        t.Some? && m.value == Match(p, t.value.end, t.value.groups)
  {
    if !HasAt(text, p, VolumeLabel) then None
    else
      var lineEnd := Skip(text, p + |VolumeLabel|, NotNewline);
      var tail := LastRanked(text, p + |VolumeLabel|, lineEnd);
      if tail.None? then None else Some(Match(p, tail.value.end, tail.value.groups))
  }

  /**
   * Where `[^\n]+` can start once `\s*` has given back what it must: the largest
   * position in `[lo, hi]` holding a character other than a newline.
   */
  function LastNonNewline(text: seq<char>, lo: nat, hi: nat): (r: Option<nat>)
    requires lo <= hi <= |text|
    ensures r.Some? ==> lo <= r.value <= hi && r.value < |text| && text[r.value] != '\n'
    ensures r.Some? ==> forall j :: r.value < j <= hi && j < |text| ==> text[j] == '\n'
    ensures r.None? ==> forall j :: lo <= j <= hi && j < |text| ==> text[j] == '\n'
    decreases hi - lo
  {
    if hi < |text| && text[hi] != '\n' then Some(hi)
    else if hi == lo then None
    else LastNonNewline(text, lo, hi - 1)
  }

  /**
   * `Risk Level:\s*([^\n]+)` tried at `p`. The white space run may cross newlines;
   * when it runs to the end of the text the engine backs off into it, and the group
   * is then made of white space only.
   */
  function RiskAt(text: seq<char>, p: nat): (m: Option<Match>)
    requires p <= |text|
    ensures MatchedAt(Risk, text, p, m)
    ensures m.Some? <==> HasAt(text, p, RiskLabel)
                         && LastNonNewline(text, p + |RiskLabel|, Skip(text, p + |RiskLabel|, Space)).Some?
    ensures m.Some? ==> var from := LastNonNewline(text, p + |RiskLabel|, Skip(text, p + |RiskLabel|, Space)).value;
                        var e := Skip(text, from, NotNewline);
                        m.value == Match(p, e, [text[from..e]])
    ensures m.Some? && Skip(text, p + |RiskLabel|, Space) < |text|
            ==> m.value.groups[0][0] == text[Skip(text, p + |RiskLabel|, Space)]
  {
    if !HasAt(text, p, RiskLabel) then None
    else
      var spaceEnd := Skip(text, p + |RiskLabel|, Space);
      var from := LastNonNewline(text, p + |RiskLabel|, spaceEnd);
      if from.None? then None
      else
        var e := Skip(text, from.value, NotNewline);
        Some(Match(p, e, [text[from.value..e]]))
  }

  /** No letter occurs in `text[i..j]`. */
  predicate NoLetters(text: seq<char>, i: nat, j: nat)
    requires i <= j <= |text|
  {
    forall k :: i <= k < j ==> !IsLetter(text[k])
  }

  /** `\s+` and then a non-empty run of digits (or digits and dots) tried at `a`: the bounds of that run. */
  function SpacedRunAt(text: seq<char>, a: nat, k: CharClass): (r: Option<(nat, nat)>)
    requires a <= |text| && (k == Digit || k == DigitOrDot)
    ensures r.Some? ==> a < r.value.0 < r.value.1 <= |text| && Run(text[r.value.0..r.value.1], k)
    ensures r.Some? ==> NoLetters(text, a, r.value.1)
    ensures r.Some? <==> a < Skip(text, a, Space) < Skip(text, Skip(text, a, Space), k)
    ensures r.Some? ==> r.value == (Skip(text, a, Space), Skip(text, Skip(text, a, Space), k))
  {
    var b := Skip(text, a, Space);
    if b == a then None
    else
      var c := Skip(text, b, k);
      if c == b then None else Some((b, c))
  }

  /** `\s+([+-][\d.]+)%` tried at `a`: the bounds of the signed group and the end of the match. */
  function SpacedPercentAt(text: seq<char>, a: nat): (r: Option<(nat, nat)>)
    requires a <= |text|
    ensures r.Some? ==> a < r.value.0 && r.value.0 + 1 < r.value.1 < |text| && text[r.value.1] == '%'
    ensures r.Some? ==> var g := text[r.value.0..r.value.1];
                        (g[0] == '+' || g[0] == '-') && AllIn(g[1..], DigitOrDot)
    ensures r.Some? ==> NoLetters(text, a, r.value.1 + 1)
    ensures var f := Skip(text, a, Space);
            r.Some? <==> a < f < |text| && (text[f] == '+' || text[f] == '-')
                         && f + 1 < Skip(text, f + 1, DigitOrDot) < |text| && text[Skip(text, f + 1, DigitOrDot)] == '%'
    ensures r.Some? ==> r.value == (Skip(text, a, Space), Skip(text, Skip(text, a, Space) + 1, DigitOrDot))
  {
    var f := Skip(text, a, Space);
    if f == a || f == |text| || (text[f] != '+' && text[f] != '-') then None
    else
      var g := Skip(text, f + 1, DigitOrDot);
      if g == f + 1 || g == |text| || text[g] != '%' then None
      else
        assert text[f..g][1..] == text[f + 1..g];
        Some((f, g))
  }

  /** `<keyword>\s+(\d+)\s+([\d.]+)\s+([+-][\d.]+)%` tried at `p`. */
  function RowAt(text: seq<char>, p: nat, keyword: seq<char>): (m: Option<Match>)
    requires p <= |text| && |keyword| > 0
    ensures m.Some? ==> m.value.start == p && p < m.value.end <= |text| && RowGroups(m.value.groups)
    ensures m.Some? ==> HasAt(text, p, keyword) && text[m.value.end - 1] == '%'
    ensures m.Some? ==> p + |keyword| < m.value.end && NoLetters(text, p + |keyword|, m.value.end)
  {
    if !HasAt(text, p, keyword) then None
    else
      var level := SpacedRunAt(text, p + |keyword|, Digit);
      if level.None? then None
      else
        var price := SpacedRunAt(text, level.value.1, DigitOrDot);
        if price.None? then None
        else
          var pct := SpacedPercentAt(text, price.value.1);
          if pct.None? then None
          else
            Some(Match(p, pct.value.1 + 1,
                       [text[level.value.0..level.value.1], text[price.value.0..price.value.1],
                        text[pct.value.0..pct.value.1]]))
  }

  /** Every character of `text[i..j]` is in class `k`. */
  predicate Within(text: seq<char>, i: nat, j: nat, k: CharClass)
    requires i <= j <= |text|
  {
    forall x :: i <= x < j ==> InClass(text[x], k)
  }

  /**
   * `text` holds a table row at `p` cut at `b` to `g`: the keyword, white space, the
   * level's digits `[b, c)`, white space, the price's digits and dots `[d, e)`, white
   * space, a sign at `f` followed by digits and dots up to `g`, and `%` at `g`.
   */
  predicate RowLaidOut(text: seq<char>, p: nat, keyword: seq<char>, b: nat, c: nat, d: nat, e: nat, f: nat, g: nat) {
    && HasAt(text, p, keyword)
    && p + |keyword| < b < c < d < e < f && f + 1 < g < |text|
    && Within(text, p + |keyword|, b, Space) && Within(text, b, c, Digit)
    && Within(text, c, d, Space) && Within(text, d, e, DigitOrDot)
    && Within(text, e, f, Space) && (text[f] == '+' || text[f] == '-')
    && Within(text, f + 1, g, DigitOrDot) && text[g] == '%'
  }

  /** A row laid out in the text is matched at its keyword, and the groups are its level, price and signed percentage. */
  lemma RowAtLiteral(text: seq<char>, p: nat, keyword: seq<char>, b: nat, c: nat, d: nat, e: nat, f: nat, g: nat)
    requires |keyword| > 0 && RowLaidOut(text, p, keyword, b, c, d, e, f, g)
    ensures RowAt(text, p, keyword) == Some(Match(p, g + 1, [text[b..c], text[d..e], text[f..g]]))
  {
    SpacedRunLiteral(text, p + |keyword|, b, c, Digit);
    SpacedRunLiteral(text, c, d, e, DigitOrDot);
    SpacedPercentLiteral(text, e, f, g);
    RowAtFromParts(text, p, keyword, b, c, d, e, f, g);
  }

  /** The row match assembled from its three parts. */
  lemma RowAtFromParts(text: seq<char>, p: nat, keyword: seq<char>, b: nat, c: nat, d: nat, e: nat, f: nat, g: nat)
    requires p <= |text| && |keyword| > 0 && HasAt(text, p, keyword)
    requires SpacedRunAt(text, p + |keyword|, Digit) == Some((b, c))
    requires SpacedRunAt(text, c, DigitOrDot) == Some((d, e))
    requires SpacedPercentAt(text, e) == Some((f, g))
    ensures RowAt(text, p, keyword) == Some(Match(p, g + 1, [text[b..c], text[d..e], text[f..g]]))
  {
  }

  /** White space up to `b`, then a maximal run of class `k` up to `c`: `\s+` and the run match with those bounds. */
  lemma SpacedRunLiteral(text: seq<char>, a: nat, b: nat, c: nat, k: CharClass)
    requires a < b < c <= |text| && (k == Digit || k == DigitOrDot)
    requires Within(text, a, b, Space) && Within(text, b, c, k)
    requires c < |text| ==> IsSpace(text[c])
    ensures SpacedRunAt(text, a, k) == Some((b, c))
  {
    SkipExact(text, a, b, Space);
    SkipExact(text, b, c, k);
  }

  /** White space up to `f`, a sign, digits and dots up to `g`, then `%`: the percentage part matches with those bounds. */
  lemma SpacedPercentLiteral(text: seq<char>, e: nat, f: nat, g: nat)
    requires e < f && f + 1 < g < |text|
    requires Within(text, e, f, Space) && (text[f] == '+' || text[f] == '-')
    requires Within(text, f + 1, g, DigitOrDot) && text[g] == '%'
    ensures SpacedPercentAt(text, e) == Some((f, g))
  {
    SkipExact(text, e, f, Space);
    SkipExact(text, f + 1, g, DigitOrDot);
  }

  /** Conversely, every row match is a row laid out in the text, with those groups. */
  lemma RowAtLaidOut(text: seq<char>, p: nat, keyword: seq<char>)
    requires p <= |text| && |keyword| > 0 && RowAt(text, p, keyword).Some?
    ensures exists b: nat, c: nat, d: nat, e: nat, f: nat, g: nat :: RowLaidOut(text, p, keyword, b, c, d, e, f, g)
                                       && RowAt(text, p, keyword).value == Match(p, g + 1, [text[b..c], text[d..e], text[f..g]])
  {
    var level := SpacedRunAt(text, p + |keyword|, Digit).value;
    var price := SpacedRunAt(text, level.1, DigitOrDot).value;
    var pct := SpacedPercentAt(text, price.1).value;
    var b, c, d, e, f, g := level.0, level.1, price.0, price.1, pct.0, pct.1;
    assert Within(text, p + |keyword|, b, Space);
    assert Within(text, c, d, Space);
    assert Within(text, e, f, Space);
    assert Within(text, f + 1, g, DigitOrDot);
    assert RowLaidOut(text, p, keyword, b, c, d, e, f, g);
  }

  /** The pattern of field `f` tried at position `p` (no match past the end of the text). */
  function MatchAt(f: Field, text: seq<char>, p: nat): (m: Option<Match>)
    ensures p <= |text| ==> MatchedAt(f, text, p, m)
    ensures p > |text| ==> m.None?
  {
    if p > |text| then None
    else
      match f
      case Symbol => SymbolAt(text, p)
      case Entry => EntryAt(text, p)
      case Volume => VolumeAt(text, p)
      case Risk => RiskAt(text, p)
      case TargetRow => RowAt(text, p, TargetLabel)
      case StopLossRow => RowAt(text, p, StopLossLabel)
  }

  /** A pattern as the search functions see it: something tried at one position. */
  type Matcher = (seq<char>, nat) -> Option<Match>

  function Pattern(f: Field): Matcher {
    (t: seq<char>, p: nat) => MatchAt(f, t, p)
  }

  /** Every match the matcher reports in `text` starts where it was tried and is not empty. */
  predicate SoundOn(m: Matcher, text: seq<char>) {
    forall p: nat :: p <= |text| && m(text, p).Some? ==> m(text, p).value.start == p && p < m(text, p).value.end <= |text|
  }

  lemma PatternSound(f: Field, text: seq<char>)
    ensures SoundOn(Pattern(f), text)
  {
    forall p: nat | p <= |text| && Pattern(f)(text, p).Some?
      ensures Pattern(f)(text, p).value.start == p && p < Pattern(f)(text, p).value.end <= |text|
    {
      assert MatchedAt(f, text, p, MatchAt(f, text, p));
    }
  }

  /** `re.search` from position `p`: the match at the leftmost position where the pattern matches. */
  function Search(m: Matcher, text: seq<char>, p: nat): (r: Option<Match>)
    requires p <= |text| && SoundOn(m, text)
    ensures r.Some? ==> p <= r.value.start <= |text| && m(text, r.value.start) == r
    ensures r.Some? ==> forall q :: p <= q < r.value.start ==> m(text, q).None?
    ensures r.None? ==> forall q :: p <= q <= |text| ==> m(text, q).None?
    decreases |text| - p
  {
    var here := m(text, p);
    if here.Some? then here
    else if p == |text| then None
    else Search(m, text, p + 1)
  }

  /**
   * `re.findall` from position `p`: the leftmost match, then the matches after its end.
   * Every element is a match of the pattern where it starts, and they come in text order
   * without overlapping.
   */
  function FindAll(m: Matcher, text: seq<char>, p: nat): (ms: seq<Match>)
    requires p <= |text| && SoundOn(m, text)
    ensures forall i :: 0 <= i < |ms| ==> p <= ms[i].start < ms[i].end <= |text|
    ensures forall i :: 0 <= i < |ms| ==> m(text, ms[i].start) == Some(ms[i])
    ensures forall i, j :: 0 <= i < j < |ms| ==> ms[i].end <= ms[j].start
    decreases |text| - p
  {
    var first := Search(m, text, p);
    if first.None? then []
    else
      var rest := FindAll(m, text, first.value.end);
      assert forall j :: 0 <= j < |rest| ==> first.value.end <= rest[j].start;
      [first.value] + rest
  }

  /**
   * The last position in `[lo, hi]` where the matcher matches, found by trying from
   * `hi` downwards as a backtracking engine gives back characters of a greedy run.
   */
  function SearchBack(m: Matcher, text: seq<char>, lo: nat, hi: nat): (r: Option<nat>)
    requires lo <= hi <= |text|
    ensures r.Some? ==> lo <= r.value <= hi && m(text, r.value).Some?
    ensures r.Some? ==> forall j :: r.value < j <= hi ==> m(text, j).None?
    ensures r.None? ==> forall j :: lo <= j <= hi ==> m(text, j).None?
    decreases hi - lo
  {
    if m(text, hi).Some? then Some(hi)
    else if hi == lo then None
    else SearchBack(m, text, lo, hi - 1)
  }

  /** The leftmost search finds nothing exactly when the pattern matches nowhere after `p`. */
  lemma SearchNoneIff(m: Matcher, text: seq<char>, p: nat)
    requires p <= |text| && SoundOn(m, text)
    ensures Search(m, text, p).None? <==> forall q :: p <= q <= |text| ==> m(text, q).None?
  {
    var r := Search(m, text, p);
    if r.Some? {
      assert m(text, r.value.start).Some?;
    }
  }

  /** One step of `re.findall`: the leftmost match, then the search goes on from its end. */
  lemma FindAllStep(m: Matcher, text: seq<char>, p: nat)
    requires p <= |text| && SoundOn(m, text) && Search(m, text, p).Some?
    ensures FindAll(m, text, p) == [Search(m, text, p).value] + FindAll(m, text, Search(m, text, p).value.end)
  {
  }

  /** Position `q` lies inside one of the matches `ms`. */
  predicate Covered(ms: seq<Match>, q: nat) {
    exists i :: 0 <= i < |ms| && ms[i].start <= q < ms[i].end
  }

  /**
   * `re.findall` skips no match: every position where the pattern matches lies inside
   * one of the matches it returns (at its start, or inside a match found earlier).
   */
  lemma {:induction false} FindAllCovers(m: Matcher, text: seq<char>, p: nat, q: nat)
    requires p <= q <= |text| && SoundOn(m, text) && m(text, q).Some?
    ensures Covered(FindAll(m, text, p), q)
    decreases |text| - p
  {
    var ms := FindAll(m, text, p);
    var first := Search(m, text, p);
    assert first.Some?;
    assert first.value.start <= q;
    FindAllStep(m, text, p);
    if q < first.value.end {
      assert 0 < |ms| && ms[0].start <= q < ms[0].end;
    } else {
      FindAllCovers(m, text, first.value.end, q);
      var rest := FindAll(m, text, first.value.end);
      var i :| 0 <= i < |rest| && rest[i].start <= q < rest[i].end;
      assert ms[i + 1] == rest[i];
      assert 0 <= i + 1 < |ms| && ms[i + 1].start <= q < ms[i + 1].end;
    }
  }
}
