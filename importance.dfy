/** The importance tag of an entry: one of the words `Low`, `Medium`, `High`, written as a
    whole word inside the entry's `keywords` field (`keywords = {ethics, High}`). Levels are
    ordered Low < Medium < High; an entry without a tag counts as Low. The deduplication uses
    the tag to decide which copy of an entry survives, and rewrites it in place when a later
    copy carries a higher one. */
module Importance {

  import opened Wrappers
  import opened Text
  import opened BibLine
  import opened EntryFields

  datatype Level = Low | Medium | High

  function Rank(l: Level): nat {
    match l
    case Low => 0
    case Medium => 1
    case High => 2
  }

  /** The higher of two levels. */
  function Max(a: Level, b: Level): (m: Level)
    ensures Rank(m) >= Rank(a) && Rank(m) >= Rank(b) && (m == a || m == b)
  {
    if Rank(b) > Rank(a) then b else a
  }

  /** The word that spells a level, exactly as it appears in the text. */
  function Name(l: Level): (w: string)
    ensures 3 <= |w| && forall i :: 0 <= i < |w| ==> IsLetter(w[i])
  {
    match l
    case Low => "Low"
    case Medium => "Medium"
    case High => "High"
  }

  /** The level a word spells; the comparison is case-sensitive. */
  function LevelNamed(w: string): (l: Option<Level>)
    ensures l.Some? ==> Name(l.value) == w
    ensures l.None? ==> w != Name(Low) && w != Name(Medium) && w != Name(High)
  {
    if w == Name(Low) then Some(Low)
    else if w == Name(Medium) then Some(Medium)
    else if w == Name(High) then Some(High)
    else None
  }

  /** The level whose name is the whole word starting at p: the word must not continue a word
      that starts before p, and it ends where the run of word characters ends. */
  function LevelAt(line: string, p: nat): Option<Level>
    requires p <= |line|
  {
    if p == 0 || !IsWordChar(line[p - 1]) then LevelNamed(line[p..p + WordRun(line, p)]) else None
  }

  /** The level word at each position of a line. */
  function Tokens(line: string): (ts: seq<Option<Level>>)
    ensures |ts| == |line| && forall p :: 0 <= p < |line| ==> ts[p] == LevelAt(line, p)
  {
    seq(|line|, p requires 0 <= p < |line| => LevelAt(line, p))
  }

  /** The first position at or after `from` holding a level word. */
  function FirstLevel(ts: seq<Option<Level>>, from: nat): (r: Option<nat>)
    requires from <= |ts|
    ensures r.Some? ==> from <= r.value < |ts| && ts[r.value].Some?
    ensures r.Some? ==> forall q :: from <= q < r.value ==> ts[q].None?
    ensures r.None? ==> forall q :: from <= q < |ts| ==> ts[q].None?
    decreases |ts| - from
  {
    if from == |ts| then None
    else if ts[from].Some? then Some(from)
    else FirstLevel(ts, from + 1)
  }

  /** Where an entry's importance tag is: its line, its position in the line, and its level. */
  datatype Tag = Tag(line: nat, pos: nat, level: Level)

  /** The position just after the '=' of the first `keywords` declaration, when there is one. */
  function KeywordsValue(lines: seq<string>): (v: Option<(nat, nat)>)
    ensures v.Some? ==> v.value.0 < |lines| && FieldLine(lines, "keywords") == Some(v.value.0)
                        && DeclaredField(lines[v.value.0]).Some?
                        && v.value.1 == DeclaredField(lines[v.value.0]).value.valueStart
    ensures v.None? ==> FieldLine(lines, "keywords").None?
  {
    match FieldLine(lines, "keywords")
    case None => None
    case Some(i) => Some((i, DeclaredField(lines[i]).value.valueStart))
  }

  /** The tag of an entry given as lines: the first level word after the '=' of its first
      `keywords` declaration, on that same line. */
  function TagOf(lines: seq<string>): Option<Tag> {
    match KeywordsValue(lines)
    case None => None
    case Some((i, start)) =>
      var ts := Tokens(lines[i]);
      match FirstLevel(ts, start)
      case None => None
      case Some(p) => Some(Tag(i, p, ts[p].value))
  }

  /** `parse_importance`: the level of the entry's tag, Low when it has none. */
  function ParseImportance(entry: string): Level {
    match TagOf(SplitLines(entry))
    case None => Low
    case Some(t) => t.level
  }

  /** The line with the n characters at p replaced by the name of `level`. */
  function Retag(line: string, p: nat, n: nat, level: Level): string
    requires p + n <= |line|
  {
    line[..p] + Name(level) + line[p + n..]
  }

  /** `upgrade_importance`: the entry with its tag replaced by `level`; an entry without a tag
      is returned unchanged. */
  function UpgradeImportance(entry: string, level: Level): string {
    var lines := SplitLines(entry);
    match TagOf(lines)
    case None => entry
    case Some(t) =>
      TagFacts(lines);
      LevelWord(lines[t.line], t.pos, t.level);
      JoinLines(lines[t.line := Retag(lines[t.line], t.pos, |Name(t.level)|, level)])
  }

  // ---------------------------------------------------------------------------------------
  // Facts about a tag

  /** The tag is a level word after the '=' of the first `keywords` declaration... */
  lemma TagFacts(lines: seq<string>)
    requires TagOf(lines).Some?
    ensures var t := TagOf(lines).value;
            && KeywordsValue(lines).Some? && KeywordsValue(lines).value.0 == t.line
            && KeywordsValue(lines).value.1 <= t.pos < |lines[t.line]|
            && LevelAt(lines[t.line], t.pos) == Some(t.level)
  {
    var t := TagOf(lines).value;
    var ts := Tokens(lines[t.line]);
    assert ts[t.pos] == LevelAt(lines[t.line], t.pos);
  }

  /** ... and the first one there. */
  lemma TagFirst(lines: seq<string>)
    requires TagOf(lines).Some?
    ensures var t := TagOf(lines).value;
            && KeywordsValue(lines).Some? && KeywordsValue(lines).value.0 == t.line
            && forall q :: KeywordsValue(lines).value.1 <= q < t.pos ==> LevelAt(lines[t.line], q).None?
  {
    var t := TagOf(lines).value;
    var ts := Tokens(lines[t.line]);
    forall q | KeywordsValue(lines).value.1 <= q < t.pos ensures LevelAt(lines[t.line], q).None? {
      assert ts[q] == LevelAt(lines[t.line], q);
    }
  }

  /** The converse: the first level word after the '=' of the first `keywords` declaration
      is the tag. */
  lemma TagAt(lines: seq<string>, i: nat, start: nat, p: nat, level: Level)
    requires KeywordsValue(lines) == Some((i, start))
    requires start <= p < |lines[i]| && LevelAt(lines[i], p) == Some(level)
    requires forall q :: start <= q < p ==> LevelAt(lines[i], q).None?
    ensures TagOf(lines) == Some(Tag(i, p, level))
  {
    var ts := Tokens(lines[i]);
    FirstLevelAt(ts, start, p);
  }

  lemma FirstLevelAt(ts: seq<Option<Level>>, from: nat, p: nat)
    requires from <= p < |ts| && ts[p].Some? && forall q :: from <= q < p ==> ts[q].None?
    ensures FirstLevel(ts, from) == Some(p)
  {
  }

  /** A level word is the level's name, standing alone. */
  lemma LevelWord(line: string, p: nat, level: Level)
    requires p <= |line| && LevelAt(line, p) == Some(level)
    ensures WholeWord(line, p, |Name(level)|)
    ensures line[p..p + |Name(level)|] == Name(level) && WordRun(line, p) == |Name(level)|
  {
  }

  /** Without a `keywords` declaration, or without a level word after its '=', the entry has
      no tag. */
  lemma NoTagIff(lines: seq<string>)
    ensures TagOf(lines).None? <==>
              || FieldLine(lines, "keywords").None?
              || var i := FieldLine(lines, "keywords").value;
                 forall q :: DeclaredField(lines[i]).value.valueStart <= q < |lines[i]| ==> LevelAt(lines[i], q).None?
  {
    match KeywordsValue(lines)
    case None =>
    case Some((i, start)) =>
      var ts := Tokens(lines[i]);
      if TagOf(lines).None? {
        forall q | start <= q < |lines[i]| ensures LevelAt(lines[i], q).None? {
          assert ts[q] == LevelAt(lines[i], q);
        }
      } else {
        TagFacts(lines);
        TagFirst(lines);
      }
  }

  /** Before a non-word character at p - 1, a line and its rewrite from p on have the same
      level words. */
  lemma LevelAtAgree(s: string, t: string, q: nat, p: nat)
    requires q < p <= |s| && p <= |t| && Agree(s, t, p) && !IsWordChar(s[p - 1])
    ensures LevelAt(t, q) == LevelAt(s, q)
  {
    var n := WordRun(s, q);
    WordRunStops(s, q, p - 1);
    WordRunAgree(s, t, q, p);
    AgreeSlice(s, t, p, q, q + n);
    if q > 0 {
      AgreeSlice(s, t, p, q - 1, q);
      assert s[q - 1] == s[q - 1..q][0] && t[q - 1] == t[q - 1..q][0];
    }
    LevelAtSame(s, t, q);
  }

  /** The level word at q depends only on the character before q and the word run from q. */
  lemma LevelAtSame(s: string, t: string, q: nat)
    requires q <= |s| && q <= |t| && WordRun(t, q) == WordRun(s, q)
    requires s[q..q + WordRun(s, q)] == t[q..q + WordRun(s, q)]
    requires q > 0 ==> s[q - 1] == t[q - 1]
    ensures LevelAt(t, q) == LevelAt(s, q)
  {
  }

  /** The rewritten tag line: same text before the tag, the new name, same text after. */
  lemma RetagShape(line: string, p: nat, n: nat, level: Level)
    requires p + n <= |line|
    ensures var r := Retag(line, p, n, level);
            && |r| == |line| - n + |Name(level)|
            && Agree(line, r, p)
            && r[p..p + |Name(level)|] == Name(level)
            && r[p + |Name(level)|..] == line[p + n..]
            && ('\n' !in line ==> '\n' !in r)
  {
    var r := Retag(line, p, n, level);
    var m := |Name(level)|;
    assert r[..p] == line[..p];
    assert r[p..p + m] == Name(level);
    assert r[p + m..] == line[p + n..];
    if '\n' !in line {
      assert '\n' !in Name(level);
      assert '\n' !in line[..p] && '\n' !in line[p + n..];
    }
  }

  /** line[p..p + n] is a whole word: no word character touches it on either side. */
  predicate WholeWord(line: string, p: nat, n: nat) {
    && p + n <= |line|
    && (p == 0 || !IsWordChar(line[p - 1]))
    && (p + n < |line| ==> !IsWordChar(line[p + n]))
  }

  /** A level name put in place of a whole word is a level word. */
  lemma RetagFacts(line: string, p: nat, n: nat, level: Level)
    requires WholeWord(line, p, n)
    ensures var r := Retag(line, p, n, level);
            && |r| == |line| - n + |Name(level)|
            && Agree(line, r, p)
            && r[p..p + |Name(level)|] == Name(level)
            && r[p + |Name(level)|..] == line[p + n..]
            && LevelAt(r, p) == Some(level)
            && ('\n' !in line ==> '\n' !in r)
  {
    RetagShape(line, p, n, level);
    WordAfterRewrite(line, Retag(line, p, n, level), p, n, level);
  }

  lemma WordAfterRewrite(line: string, r: string, p: nat, n: nat, level: Level)
    requires p + n <= |line| && |r| == |line| - n + |Name(level)|
    requires Agree(line, r, p) && r[p..p + |Name(level)|] == Name(level) && r[p + |Name(level)|..] == line[p + n..]
    requires p == 0 || !IsWordChar(line[p - 1])
    requires p + n < |line| ==> !IsWordChar(line[p + n])
    ensures LevelAt(r, p) == Some(level)
  {
    var m := |Name(level)|;
    forall i | p <= i < p + m ensures IsWordChar(r[i]) {
      assert r[i] == r[p..p + m][i - p];
    }
    if p + m < |r| {
      assert r[p + m] == r[p + m..][0] == line[p + n..][0];
    }
    WordRunExact(r, p, m);
    if p > 0 {
      AgreeAt(line, r, p);
    }
  }

  /** A line rewritten after a non-word character at p - 1, past the '=' of its declaration,
      that has a level word at p, takes the tag to that word when the tag was at p. */
  lemma TagAfterRewrite(lines: seq<string>, line: string, level: Level)
    requires TagOf(lines).Some?
    requires var t := TagOf(lines).value;
             && t.pos <= |line| && Agree(lines[t.line], line, t.pos)
             && LevelAt(line, t.pos) == Some(level)
    ensures var t := TagOf(lines).value;
            TagOf(lines[t.line := line]) == Some(Tag(t.line, t.pos, level))
  {
    TagFacts(lines);
    TagFirst(lines);
    var t := TagOf(lines).value;
    var i, p := t.line, t.pos;
    var old_line := lines[i];
    var start := KeywordsValue(lines).value.1;
    LevelWord(old_line, p, t.level);
    LevelWord(line, p, level);
    DeclaredFieldAgree(old_line, line, p);
    FieldLineReplace(lines, i, line, "keywords");
    var rewritten := lines[i := line];
    assert KeywordsValue(rewritten) == Some((i, start));
    forall q | start <= q < p ensures LevelAt(line, q).None? {
      assert p > 0;
      LevelAtAgree(old_line, line, q, p);
    }
    TagAt(rewritten, i, start, p, level);
  }

  // ---------------------------------------------------------------------------------------
  // What parse_importance and upgrade_importance promise

  /** The upgrade touches nothing but the tag: the upgraded entry has the same lines, except
      that in the tag's line the tag's word is replaced by the name of the new level. */
  lemma UpgradeLines(entry: string, level: Level)
    requires TagOf(SplitLines(entry)).Some?
    ensures var lines := SplitLines(entry);
            var t := TagOf(lines).value;
            && t.line < |lines| && t.pos + |Name(t.level)| <= |lines[t.line]|
            && SplitLines(UpgradeImportance(entry, level))
                 == lines[t.line := Retag(lines[t.line], t.pos, |Name(t.level)|, level)]
  {
    var lines := SplitLines(entry);
    var t := TagOf(lines).value;
    TagSpan(lines);
    RetagFacts(lines[t.line], t.pos, |Name(t.level)|, level);
    var line := Retag(lines[t.line], t.pos, |Name(t.level)|, level);
    SplitJoinUpdate(lines, t.line, line);
  }

  /** The tag's word, within its line and standing alone. */
  lemma TagSpan(lines: seq<string>)
    requires TagOf(lines).Some?
    ensures var t := TagOf(lines).value;
            && t.line < |lines| && WholeWord(lines[t.line], t.pos, |Name(t.level)|)
  {
    TagFacts(lines);
    var t := TagOf(lines).value;
    LevelWord(lines[t.line], t.pos, t.level);
  }

  /** Lines without newlines, one of them replaced by another such line, survive joining and
      splitting again. */
  lemma SplitJoinUpdate(lines: seq<string>, i: nat, line: string)
    requires i < |lines| && '\n' !in line
    requires forall j :: 0 <= j < |lines| ==> '\n' !in lines[j]
    ensures SplitLines(JoinLines(lines[i := line])) == lines[i := line]
  {
    var updated := lines[i := line];
    forall j | 0 <= j < |updated| ensures '\n' !in updated[j] {
      if j != i {
        assert updated[j] == lines[j];
      }
    }
    SplitJoin(updated);
  }

  /** An entry whose tag is rewritten to `level` is parsed back as `level`, with its tag at
      the same place. */
  lemma UpgradeThenParse(entry: string, level: Level)
    requires TagOf(SplitLines(entry)).Some?
    ensures var t := TagOf(SplitLines(entry)).value;
            TagOf(SplitLines(UpgradeImportance(entry, level))) == Some(Tag(t.line, t.pos, level))
    ensures ParseImportance(UpgradeImportance(entry, level)) == level
  {
    var lines := SplitLines(entry);
    var t := TagOf(lines).value;
    UpgradeLines(entry, level);
    TagSpan(lines);
    RetagFacts(lines[t.line], t.pos, |Name(t.level)|, level);
    TagAfterRewrite(lines, Retag(lines[t.line], t.pos, |Name(t.level)|, level), level);
  }

  /** An entry without a tag parses as Low and is left exactly as it is by an upgrade. */
  lemma NoTagUnchanged(entry: string, level: Level)
    requires || FieldLine(SplitLines(entry), "keywords").None?
             || var lines := SplitLines(entry);
                var i := FieldLine(lines, "keywords").value;
                forall q :: DeclaredField(lines[i]).value.valueStart <= q < |lines[i]| ==> LevelAt(lines[i], q).None?
    ensures ParseImportance(entry) == Low
    ensures UpgradeImportance(entry, level) == entry
  {
    NoTagIff(SplitLines(entry));
  }

  /** Rewriting an entry to the level it already has changes nothing. */
  lemma UpgradeToOwnLevel(entry: string)
    ensures UpgradeImportance(entry, ParseImportance(entry)) == entry
  {
    var lines := SplitLines(entry);
    if TagOf(lines).Some? {
      var t := TagOf(lines).value;
      RetagOwnTag(lines);
      assert lines[t.line := lines[t.line]] == lines;
      JoinSplit(entry);
    }
  }

  /** Writing the tag's own level over it gives the line back. */
  lemma RetagOwnTag(lines: seq<string>)
    requires TagOf(lines).Some?
    ensures var t := TagOf(lines).value;
            && t.line < |lines| && t.pos + |Name(t.level)| <= |lines[t.line]|
            && Retag(lines[t.line], t.pos, |Name(t.level)|, t.level) == lines[t.line]
  {
    TagFacts(lines);
    var t := TagOf(lines).value;
    var line := lines[t.line];
    assert t.pos <= |line| && LevelAt(line, t.pos) == Some(t.level);
    LevelWord(line, t.pos, t.level);
    RetagSame(line, t.pos, t.level);
  }

  lemma RetagSame(line: string, p: nat, level: Level)
    requires p + |Name(level)| <= |line| && line[p..p + |Name(level)|] == Name(level)
    ensures Retag(line, p, |Name(level)|, level) == line
  {
    var n := |Name(level)|;
    assert line == line[..p] + line[p..p + n] + line[p + n..];
  }

  lemma RetagTwice(line: string, p: nat, n: nat, first: Level, second: Level)
    requires p + n <= |line|
    ensures p + |Name(first)| <= |Retag(line, p, n, first)|
    ensures Retag(Retag(line, p, n, first), p, |Name(first)|, second) == Retag(line, p, n, second)
  {
    var once := Retag(line, p, n, first);
    var m := |Name(first)|;
    assert once[..p] == line[..p];
    assert once[p + m..] == line[p + n..];
  }

  lemma UpdateTwice<T>(s: seq<T>, i: nat, a: T, b: T)
    requires i < |s|
    ensures s[i := a][i := b] == s[i := b]
  {
  }

  /** Only the last upgrade counts: upgrading twice is upgrading once to the second level. */
  lemma UpgradeTwice(entry: string, first: Level, second: Level)
    ensures UpgradeImportance(UpgradeImportance(entry, first), second) == UpgradeImportance(entry, second)
  {
    var lines := SplitLines(entry);
    if TagOf(lines).Some? {
      var t := TagOf(lines).value;
      var i, p, n := t.line, t.pos, |Name(t.level)|;
      UpgradeLines(entry, first);
      UpgradeThenParse(entry, first);
      var once := Retag(lines[i], p, n, first);
      RetagTwice(lines[i], p, n, first, second);
      UpdateTwice(lines, i, once, Retag(once, p, |Name(first)|, second));
    }
  }
}
