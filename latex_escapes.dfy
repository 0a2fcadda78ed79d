/** The diacritic-escape detector. A line may spell an accented letter or a ligature with a
    legacy LaTeX escape: an accent command (`\"u`, `\'i`, `` \`e ``, `\^o`, `\~n`, with the letter
    bare or in braces, `\"{u}`), the cedilla command (`\c{c}`, `\c c`) or a ligature word
    (`\ss`, `\ae`, `\o`, `\l`, ...). Each may also be wrapped in a group of its own, `{\"a}`,
    which is one occurrence, not two. Every occurrence is reported with its proposed Unicode
    replacement, or `?` when the table has none, together with the citation key and the field
    name most recently seen on a line-start pattern. */
module LatexEscapes {

  import opened Wrappers
  import opened Text
  import opened FieldScanner
  import opened Seqs

  datatype Accent = Umlaut | Acute | Grave | Circumflex | Tilde | Cedilla

  /** The one-character accent commands. */
  function AccentCommand(c: char): Option<Accent> {
    match c
    case '"' => Some(Umlaut)
    case '\'' => Some(Acute)
    case '`' => Some(Grave)
    case '^' => Some(Circumflex)
    case '~' => Some(Tilde)
    case _ => None
  }

  /** The accented letters the table knows. */
  function Compose(a: Accent, x: char): Option<char> {
    match (a, x)
    case (Umlaut, 'a') => Some('ä')   case (Umlaut, 'e') => Some('ë')   case (Umlaut, 'i') => Some('ï')
    case (Umlaut, 'o') => Some('ö')   case (Umlaut, 'u') => Some('ü')   case (Umlaut, 'y') => Some('ÿ')
    case (Umlaut, 'A') => Some('Ä')   case (Umlaut, 'E') => Some('Ë')   case (Umlaut, 'I') => Some('Ï')
    case (Umlaut, 'O') => Some('Ö')   case (Umlaut, 'U') => Some('Ü')
    case (Acute, 'a') => Some('á')    case (Acute, 'e') => Some('é')    case (Acute, 'i') => Some('í')
    case (Acute, 'o') => Some('ó')    case (Acute, 'u') => Some('ú')    case (Acute, 'y') => Some('ý')
    case (Acute, 'A') => Some('Á')    case (Acute, 'E') => Some('É')    case (Acute, 'I') => Some('Í')
    case (Acute, 'O') => Some('Ó')    case (Acute, 'U') => Some('Ú')    case (Acute, 'Y') => Some('Ý')
    case (Grave, 'a') => Some('à')    case (Grave, 'e') => Some('è')    case (Grave, 'i') => Some('ì')
    case (Grave, 'o') => Some('ò')    case (Grave, 'u') => Some('ù')
    case (Grave, 'A') => Some('À')    case (Grave, 'E') => Some('È')    case (Grave, 'I') => Some('Ì')
    case (Grave, 'O') => Some('Ò')    case (Grave, 'U') => Some('Ù')
    case (Circumflex, 'a') => Some('â')  case (Circumflex, 'e') => Some('ê')  case (Circumflex, 'i') => Some('î')
    case (Circumflex, 'o') => Some('ô')  case (Circumflex, 'u') => Some('û')
    case (Circumflex, 'A') => Some('Â')  case (Circumflex, 'E') => Some('Ê')  case (Circumflex, 'I') => Some('Î')
    case (Circumflex, 'O') => Some('Ô')  case (Circumflex, 'U') => Some('Û')
    case (Tilde, 'a') => Some('ã')    case (Tilde, 'n') => Some('ñ')    case (Tilde, 'o') => Some('õ')
    case (Tilde, 'A') => Some('Ã')    case (Tilde, 'N') => Some('Ñ')    case (Tilde, 'O') => Some('Õ')
    case (Cedilla, 'c') => Some('ç')  case (Cedilla, 'C') => Some('Ç')
    case _ => None
  }

  /** The ligature and special-letter words. */
  function Ligature(name: string): Option<char> {
    if |name| == 1 then
      match name[0]
      case 'o' => Some('ø')  case 'O' => Some('Ø')
      case 'l' => Some('ł')  case 'L' => Some('Ł')
      case _ => None
    else if |name| == 2 then
      match (name[0], name[1])
      case ('s', 's') => Some('ß')
      case ('a', 'e') => Some('æ')  case ('A', 'E') => Some('Æ')
      case ('o', 'e') => Some('œ')  case ('O', 'E') => Some('Œ')
      case ('a', 'a') => Some('å')  case ('A', 'A') => Some('Å')
      case _ => None
    else None
  }

  /** The replacement proposed for an accent on a letter: the table's, or `?`. */
  function Replacement(a: Accent, x: char): char {
    match Compose(a, x)
    case Some(r) => r
    case None => '?'
  }

  /** An escape recognised at a position: how many characters it spans and its replacement. */
  datatype Hit = Hit(len: nat, replacement: char)

  /** The accent's argument, `k` characters after the backslash at `i`: a bare letter or a
      letter in braces. */
  function AccentArgument(line: string, i: nat, a: Accent, k: nat): (h: Option<Hit>)
    requires i + k <= |line|
    ensures h.Some? ==> k + 1 <= h.value.len && i + h.value.len <= |line|
  {
    if i + k < |line| && IsLetter(line[i + k]) then Some(Hit(k + 1, Replacement(a, line[i + k])))
    else if i + k + 2 < |line| && line[i + k] == '{' && IsLetter(line[i + k + 1]) && line[i + k + 2] == '}'
    then Some(Hit(k + 3, Replacement(a, line[i + k + 1])))
    else None
  }

  /** Length of the run of letters starting at `from`. */
  function LetterRun(s: string, from: nat): (n: nat)
    requires from <= |s|
    ensures from + n <= |s|
    decreases |s| - from
  {
    if from < |s| && IsLetter(s[from]) then 1 + LetterRun(s, from + 1) else 0
  }

  /** An escape written without a group of its own, starting with the backslash at `i`. */
  function Unbraced(line: string, i: nat): (h: Option<Hit>)
    requires i <= |line|
    ensures h.Some? ==> 2 <= h.value.len && i + h.value.len <= |line| && line[i] == '\\'
  {
    if i + 1 < |line| && line[i] == '\\' then
      var c := line[i + 1];
      if AccentCommand(c).Some? then AccentArgument(line, i, AccentCommand(c).value, 2)
      else if c == 'c' && i + 2 < |line| && line[i + 2] == '{' then AccentArgument(line, i, Cedilla, 2)
      else if c == 'c' && i + 2 < |line| && line[i + 2] == ' ' then AccentArgument(line, i, Cedilla, 3)
      else
        var n := LetterRun(line, i + 1);
        match Ligature(line[i + 1..i + 1 + n])
        case Some(r) => Some(Hit(1 + n, r))
        case None => None
    else None
  }

  /** The escape starting at `i`, if any: the grouped form `{\"a}` is tried first, so that it
      is one occurrence. */
  function HitAt(line: string, i: nat): (h: Option<Hit>)
    requires i <= |line|
    ensures h.Some? ==> 2 <= h.value.len && i + h.value.len <= |line|
  {
    if i < |line| && line[i] == '{' then
      match Unbraced(line, i + 1)
      case Some(u) =>
        if i + 1 + u.len < |line| && line[i + 1 + u.len] == '}' then Some(Hit(u.len + 2, u.replacement))
        else Unbraced(line, i)
      case None => Unbraced(line, i)
    else Unbraced(line, i)
  }

  /** One reported occurrence: where it starts, the text matched and its replacement. */
  datatype Match = Match(start: nat, text: string, replacement: char)

  /** The escape recognised at each position of the line. */
  function Hits(line: string): (hits: seq<Option<Hit>>)
    ensures |hits| == |line|
  {
    seq(|line|, k requires 0 <= k < |line| => HitAt(line, k))
  }

  /** Every escape recognised lies within the line and spans at least two characters. */
  predicate Fits(line: string, hits: seq<Option<Hit>>) {
    && |hits| == |line|
    && forall k :: 0 <= k < |hits| && hits[k].Some? ==> 2 <= hits[k].value.len && k + hits[k].value.len <= |line|
  }

  lemma HitsFit(line: string)
    ensures Fits(line, Hits(line))
  {
  }

  /** The occurrences from position `i` on, left to right, each resuming after the previous. */
  function MatchesFrom(line: string, hits: seq<Option<Hit>>, i: nat): seq<Match>
    requires Fits(line, hits) && i <= |line|
    decreases |line| - i
  {
    if i == |line| then []
    else
      match hits[i]
      case Some(h) => [Match(i, line[i..i + h.len], h.replacement)] + MatchesFrom(line, hits, i + h.len)
      case None => MatchesFrom(line, hits, i + 1)
  }

  /** The occurrences of escapes in one line, in order. */
  function EscapesIn(line: string): seq<Match> {
    HitsFit(line);
    MatchesFrom(line, Hits(line), 0)
  }

  // ---------------------------------------------------------------------------------------
  // The scan over recognised escapes

  /** Every match starts, after `i`, at a position where an escape of its length is recognised
      and is the text of the line there; each starts at or after the end of the one before. */
  lemma {:induction false} MatchesFromSound(line: string, hits: seq<Option<Hit>>, i: nat)
    requires Fits(line, hits) && i <= |line|
    ensures forall m :: m in MatchesFrom(line, hits, i) ==>
              && i <= m.start && 2 <= |m.text| && m.start + |m.text| <= |line|
              && hits[m.start] == Some(Hit(|m.text|, m.replacement))
              && m.text == line[m.start..m.start + |m.text|]
    decreases |line| - i
  {
    if i < |line| {
      match hits[i]
      case Some(h) =>
        MatchesFromSound(line, hits, i + h.len);
      case None =>
        MatchesFromSound(line, hits, i + 1);
    }
  }

  /** Each match starts at or after the end of the one before. */
  lemma {:induction false} MatchesFromOrdered(line: string, hits: seq<Option<Hit>>, i: nat)
    requires Fits(line, hits) && i <= |line|
    ensures forall k :: 0 <= k < |MatchesFrom(line, hits, i)| - 1 ==>
              MatchesFrom(line, hits, i)[k].start + |MatchesFrom(line, hits, i)[k].text|
                <= MatchesFrom(line, hits, i)[k + 1].start
    decreases |line| - i
  {
    if i < |line| {
      match hits[i]
      case Some(h) =>
        var rest := MatchesFrom(line, hits, i + h.len);
        MatchesFromOrdered(line, hits, i + h.len);
        MatchesFromSound(line, hits, i + h.len);
        var ms := MatchesFrom(line, hits, i);
        assert ms == [Match(i, line[i..i + h.len], h.replacement)] + rest;
        if rest != [] {
          assert rest[0] in rest;
        }
        assert forall k :: 1 <= k < |ms| ==> ms[k] == rest[k - 1];
      case None =>
        MatchesFromOrdered(line, hits, i + 1);
    }
  }

  /** Where nothing is recognised, nothing is matched. */
  lemma {:induction false} NoHitNoMatch(line: string, hits: seq<Option<Hit>>, i: nat)
    requires Fits(line, hits) && i <= |line|
    requires forall k :: i <= k < |line| ==> hits[k].None?
    ensures MatchesFrom(line, hits, i) == []
    decreases |line| - i
  {
    if i < |line| {
      NoHitNoMatch(line, hits, i + 1);
    }
  }

  /** Positions before `j` where nothing is recognised contribute nothing. */
  lemma {:induction false} SkipToHit(line: string, hits: seq<Option<Hit>>, i: nat, j: nat)
    requires Fits(line, hits) && i <= j <= |line|
    requires forall k :: i <= k < j ==> hits[k].None?
    ensures MatchesFrom(line, hits, i) == MatchesFrom(line, hits, j)
    decreases j - i
  {
    if i < j {
      SkipToHit(line, hits, i + 1, j);
    }
  }

  /** Every recognised escape at or after `i` lies within some match: its own, or one that
      started earlier and spans it. */
  lemma {:induction false} HitCovered(line: string, hits: seq<Option<Hit>>, i: nat, p: nat)
    requires Fits(line, hits) && i <= p < |line| && hits[p].Some?
    ensures exists m :: m in MatchesFrom(line, hits, i) && m.start <= p < m.start + |m.text|
    decreases |line| - i
  {
    match hits[i]
    case Some(h) =>
      var m := Match(i, line[i..i + h.len], h.replacement);
      var rest := MatchesFrom(line, hits, i + h.len);
      assert MatchesFrom(line, hits, i) == [m] + rest;
      if p >= i + h.len {
        HitCovered(line, hits, i + h.len, p);
        var m' :| m' in rest && m'.start <= p < m'.start + |m'.text|;
        assert m' in [m] + rest;
      } else {
        assert |m.text| == h.len;
        assert m in [m] + rest;
      }
    case None =>
      assert MatchesFrom(line, hits, i) == MatchesFrom(line, hits, i + 1);
      HitCovered(line, hits, i + 1, p);
  }

  // ---------------------------------------------------------------------------------------
  // What a line's matches are

  /** A recognised escape begins with a backslash, or with an opening brace followed by one. */
  lemma HitShape(line: string, i: nat)
    requires i <= |line| && HitAt(line, i).Some?
    ensures line[i] == '\\' || (line[i] == '{' && line[i + 1] == '\\')
  {
  }

  /** Every reported occurrence is the text of the line where an escape is recognised, begins
      with a backslash (or a brace and a backslash), and carries the escape's replacement. */
  lemma EscapeSound(line: string, m: Match)
    requires m in EscapesIn(line)
    ensures 2 <= |m.text| && m.start + |m.text| <= |line| && m.text == line[m.start..m.start + |m.text|]
    ensures HitAt(line, m.start) == Some(Hit(|m.text|, m.replacement))
    ensures line[m.start] == '\\' || (line[m.start] == '{' && line[m.start + 1] == '\\')
  {
    HitsFit(line);
    MatchesFromSound(line, Hits(line), 0);
    assert Hits(line)[m.start] == HitAt(line, m.start);
    HitShape(line, m.start);
  }

  /** The occurrences of a line do not overlap, so no character is counted twice. */
  lemma EscapesDisjoint(line: string, k: nat)
    requires k + 1 < |EscapesIn(line)|
    ensures EscapesIn(line)[k].start + |EscapesIn(line)[k].text| <= EscapesIn(line)[k + 1].start
  {
    HitsFit(line);
    MatchesFromOrdered(line, Hits(line), 0);
  }

  /** Every escape in the line is reported: an unbraced escape at `p` lies within some
      occurrence, its own or the grouped form around it. */
  lemma EscapeCovered(line: string, p: nat)
    requires p < |line| && Unbraced(line, p).Some?
    ensures exists m :: m in EscapesIn(line) && m.start <= p < m.start + |m.text|
  {
    HitsFit(line);
    assert Hits(line)[p] == HitAt(line, p);
    HitCovered(line, Hits(line), 0, p);
  }

  /** A line without a backslash has no escape. */
  lemma NoBackslashNoEscape(line: string)
    requires '\\' !in line
    ensures EscapesIn(line) == []
  {
    HitsFit(line);
    forall k | 0 <= k < |line| ensures Hits(line)[k].None? {
      assert line[k] in line;
    }
    NoHitNoMatch(line, Hits(line), 0);
  }

  // ---------------------------------------------------------------------------------------
  // Single escapes, bare and grouped

  /** The letters a run of letters is made of are exactly counted. */
  lemma {:induction false} LetterRunOf(s: string, from: nat, n: nat)
    requires from + n < |s| && !IsLetter(s[from + n])
    requires forall k :: from <= k < from + n ==> IsLetter(s[k])
    ensures LetterRun(s, from) == n
    decreases n
  {
    if n > 0 {
      LetterRunOf(s, from + 1, n - 1);
    }
  }

  /** The ligature words are non-empty runs of letters, none beginning with the cedilla's `c`. */
  lemma LigatureName(name: string)
    requires Ligature(name).Some?
    ensures 1 <= |name| && name[0] != 'c' && AllLetters(name)
  {
  }

  /** A backslash followed by a ligature word and then a character that is not a letter. */
  lemma LigatureAt(line: string, q: nat, name: string)
    requires Ligature(name).Some?
    requires q + 1 + |name| < |line| && line[q] == '\\' && line[q + 1..q + 1 + |name|] == name
    requires !IsLetter(line[q + 1 + |name|])
    ensures Unbraced(line, q) == Some(Hit(1 + |name|, Ligature(name).value))
  {
    LigatureName(name);
    assert line[q + 1] == name[0];
    forall k | q + 1 <= k < q + 1 + |name| ensures IsLetter(line[k]) {
      assert line[k] == name[k - q - 1];
    }
    LetterRunOf(line, q + 1, |name|);
  }

  /** An escape that is all of `mid`, between stretches without backslashes (the first not
      ending in an opening brace before a backslash), is the line's one occurrence. */
  lemma OnlyEscape(pre: string, mid: string, post: string, h: Hit)
    requires '\\' !in pre && '\\' !in post
    requires pre != [] && pre[|pre| - 1] == '{' && mid != [] ==> mid[0] != '\\'
    requires HitAt(pre + mid + post, |pre|) == Some(h) && h.len == |mid|
    ensures EscapesIn(pre + mid + post) == [Match(|pre|, mid, h.replacement)]
  {
    var line := pre + mid + post;
    var p, q := |pre|, |pre| + |mid|;
    HitsFit(line);
    NoHitsBefore(pre, mid, post);
    NoHitsAfter(pre, mid, post);
    assert Hits(line)[p] == Some(h);
    OnlyHit(line, Hits(line), p, h);
    assert line[p..q] == mid;
  }

  /** A line with one recognised escape has that escape as its one occurrence. */
  lemma OnlyHit(line: string, hits: seq<Option<Hit>>, p: nat, h: Hit)
    requires Fits(line, hits) && p < |line| && hits[p] == Some(h)
    requires forall k :: 0 <= k < p ==> hits[k].None?
    requires forall k :: p + h.len <= k < |line| ==> hits[k].None?
    ensures MatchesFrom(line, hits, 0) == [Match(p, line[p..p + h.len], h.replacement)]
  {
    SkipToHit(line, hits, 0, p);
    NoHitNoMatch(line, hits, p + h.len);
    ScanStep(line, hits, p);
    var m := Match(p, line[p..p + h.len], h.replacement);
    assert MatchesFrom(line, hits, p) == [m] + [];
    assert [m] + [] == [m];
  }

  /** No escape starts inside a stretch without backslashes that does not end in an opening
      brace before a backslash. */
  lemma NoHitsBefore(pre: string, mid: string, post: string)
    requires '\\' !in pre && mid != []
    requires pre != [] && pre[|pre| - 1] == '{' ==> mid[0] != '\\'
    ensures forall k :: 0 <= k < |pre| ==> Hits(pre + mid + post)[k].None?
  {
    var line := pre + mid + post;
    var hits := Hits(line);
    HitsFit(line);
    forall k | 0 <= k < |pre| ensures hits[k].None? {
      assert hits[k] == HitAt(line, k);
      assert line[k] == pre[k] && pre[k] in pre;
      if k + 1 == |pre| {
        assert line[k + 1] == mid[0];
      }
      if k + 1 < |pre| {
        assert line[k + 1] == pre[k + 1] && pre[k + 1] in pre;
      }
    }
  }

  /** No escape starts inside a trailing stretch without backslashes. */
  lemma NoHitsAfter(pre: string, mid: string, post: string)
    requires '\\' !in post
    ensures forall k :: |pre| + |mid| <= k < |pre + mid + post| ==> Hits(pre + mid + post)[k].None?
  {
    var line := pre + mid + post;
    var q := |pre| + |mid|;
    HitsFit(line);
    forall k | q <= k < |line| ensures Hits(line)[k].None? {
      assert Hits(line)[k] == HitAt(line, k);
      assert line[k] == post[k - q] && post[k - q] in post;
      if k + 1 < |line| {
        assert line[k + 1] == post[k + 1 - q] && post[k + 1 - q] in post;
      }
    }
  }

  /** `\"u` in a line with no other backslash, and not the inside of a group `{\"u}`, is the
      one escape reported, with the accented letter (or `?`) as its replacement. */
  lemma AccentReported(pre: string, cmd: char, x: char, post: string)
    requires AccentCommand(cmd).Some? && IsLetter(x)
    requires '\\' !in pre && '\\' !in post
    requires pre == [] || pre[|pre| - 1] != '{'
    ensures EscapesIn(pre + ['\\', cmd, x] + post)
         == [Match(|pre|, ['\\', cmd, x], Replacement(AccentCommand(cmd).value, x))]
  {
    var line := pre + ['\\', cmd, x] + post;
    var p := |pre|;
    assert line[p] == '\\' && line[p + 1] == cmd && line[p + 2] == x;
    OnlyEscape(pre, ['\\', cmd, x], post, Hit(3, Replacement(AccentCommand(cmd).value, x)));
  }

  /** The grouped form `{\"u}` is one occurrence, not two: the whole group is the one match. */
  lemma GroupedAccentReported(pre: string, cmd: char, x: char, post: string)
    requires AccentCommand(cmd).Some? && IsLetter(x)
    requires '\\' !in pre && '\\' !in post
    ensures EscapesIn(pre + ['{', '\\', cmd, x, '}'] + post)
         == [Match(|pre|, ['{', '\\', cmd, x, '}'], Replacement(AccentCommand(cmd).value, x))]
  {
    var line := pre + ['{', '\\', cmd, x, '}'] + post;
    var p := |pre|;
    assert line[p] == '{' && line[p + 1] == '\\' && line[p + 2] == cmd && line[p + 3] == x && line[p + 4] == '}';
    assert Unbraced(line, p + 1) == Some(Hit(3, Replacement(AccentCommand(cmd).value, x)));
    OnlyEscape(pre, ['{', '\\', cmd, x, '}'], post, Hit(5, Replacement(AccentCommand(cmd).value, x)));
  }

  /** A ligature word in its own group, `{\ss}`, is one occurrence with the ligature's letter. */
  lemma GroupedLigatureReported(pre: string, name: string, post: string)
    requires Ligature(name).Some?
    requires '\\' !in pre && '\\' !in post
    ensures EscapesIn(pre + ['{', '\\'] + name + ['}'] + post)
         == [Match(|pre|, ['{', '\\'] + name + ['}'], Ligature(name).value)]
  {
    var mid := ['{', '\\'] + name + ['}'];
    var line := pre + mid + post;
    assert line == pre + ['{', '\\'] + name + ['}'] + post;
    var p, n := |pre|, |name|;
    assert line[p] == '{' && line[p + 1] == '\\' && line[p + 2 + n] == '}';
    assert line[p + 2..p + 2 + n] == name by {
      assert line[p..p + n + 3] == mid;
      assert mid[2..2 + n] == name;
    }
    LigatureAt(line, p + 1, name);
    OnlyEscape(pre, mid, post, Hit(n + 3, Ligature(name).value));
  }

  /** `M\"uller`: one occurrence, the umlaut u. */
  lemma UmlautExample()
    ensures EscapesIn("  author = {M\\\"uller}") == [Match(13, "\\\"u", 'ü')]
  {
    var pre, post := "  author = {M", "ller}";
    assert '\\' !in pre && '\\' !in post;
    AccentReported(pre, '"', 'u', post);
    assert Replacement(Umlaut, 'u') == 'ü';
    var line := pre + ['\\', '"', 'u'] + post;
    assert EscapesIn(line) == [Match(13, "\\\"u", 'ü')];
    assert line == "  author = {M\\\"uller}";
  }

  /** `Garc\'ia`: one occurrence, the acute i. */
  lemma AcuteExample()
    ensures EscapesIn("  author = {Garc\\'ia}") == [Match(16, "\\'i", 'í')]
  {
    var pre, post := "  author = {Garc", "a}";
    assert '\\' !in pre && '\\' !in post;
    AccentReported(pre, '\'', 'i', post);
    assert Replacement(AccentCommand('\'').value, 'i') == 'í';
    var line := pre + ['\\', '\'', 'i'] + post;
    assert EscapesIn(line) == [Match(16, "\\'i", 'í')];
    assert line == "  author = {Garc\\'ia}";
  }

  /** `Espa\~na`: one occurrence, the tilde n. */
  lemma TildeExample()
    ensures EscapesIn("  author = {Espa\\~na}") == [Match(16, "\\~n", 'ñ')]
  {
    var pre, post := "  author = {Espa", "a}";
    assert '\\' !in pre && '\\' !in post;
    AccentReported(pre, '~', 'n', post);
    assert Replacement(AccentCommand('~').value, 'n') == 'ñ';
    var line := pre + ['\\', '~', 'n'] + post;
    assert EscapesIn(line) == [Match(16, "\\~n", 'ñ')];
    assert line == "  author = {Espa\\~na}";
  }

  /** `caf{\`e}`: the group is one occurrence, the grave e. */
  lemma GraveExample()
    ensures EscapesIn("  title = {caf{\\`e}}") == [Match(14, "{\\`e}", 'è')]
  {
    var pre, post := "  title = {caf", "}";
    assert '\\' !in pre && '\\' !in post;
    GroupedAccentReported(pre, '`', 'e', post);
    assert Replacement(AccentCommand('`').value, 'e') == 'è';
    var line := pre + ['{', '\\', '`', 'e', '}'] + post;
    assert EscapesIn(line) == [Match(14, "{\\`e}", 'è')];
    assert line == "  title = {caf{\\`e}}";
  }

  /** `{\"a}rger`: the group is one occurrence, not two. */
  lemma BracedUmlautExample()
    ensures EscapesIn("  author = {{\\\"a}rger}") == [Match(12, "{\\\"a}", 'ä')]
  {
    var pre, post := "  author = {", "rger}";
    assert '\\' !in pre && '\\' !in post;
    GroupedAccentReported(pre, '"', 'a', post);
    assert Replacement(AccentCommand('"').value, 'a') == 'ä';
    var line := pre + ['{', '\\', '"', 'a', '}'] + post;
    assert EscapesIn(line) == [Match(12, "{\\\"a}", 'ä')];
    assert line == "  author = {{\\\"a}rger}";
  }

  /** `Stra{\ss}e`: the group is one occurrence, the eszett. */
  lemma EszettExample()
    ensures EscapesIn("  author = {Stra{\\ss}e}") == [Match(16, "{\\ss}", 'ß')]
  {
    var pre, post := "  author = {Stra", "e}";
    assert '\\' !in pre && '\\' !in post;
    GroupedLigatureReported(pre, "ss", post);
    assert Ligature("ss") == Some('ß');
    assert ['{', '\\'] + "ss" + ['}'] == "{\\ss}";
    var line := pre + ['{', '\\'] + "ss" + ['}'] + post;
    assert EscapesIn(line) == [Match(16, "{\\ss}", 'ß')];
    assert line == "  author = {Stra{\\ss}e}";
  }

  // ---------------------------------------------------------------------------------------
  // The report over a text

  /** The citation key and field name escapes are attributed to: those of the most recent
      entry header and field declaration, when there are any. */
  datatype Context = Context(key: Option<string>, field: Option<string>)

  const NoContext := Context(None, None)

  /** A header line starts a new context (with no key for an `@comment` header), a field
      declaration changes the field, and any other line leaves the context as it is. */
  function Enter(ctx: Context, info: LineInfo): Context {
    if info.header then Context(info.key, info.field)
    else if info.field.Some? then ctx.(field := info.field)
    else ctx
  }

  /** The context after the given lines. */
  function ContextAfter(infos: seq<LineInfo>): Context {
    if infos == [] then NoContext else Enter(ContextAfter(infos[..|infos| - 1]), infos[|infos| - 1])
  }

  /** One escape occurrence: the 1-based line, the key and field it falls in, the text matched
      and the proposed replacement. */
  datatype EscapeDiagnostic = EscapeDiagnostic(line: nat, key: Option<string>, field: Option<string>,
                                               found: string, replacement: char)

  /** The occurrences of one line as diagnostics. */
  function Tagged(ctx: Context, n: nat, ms: seq<Match>): (ds: seq<EscapeDiagnostic>)
    ensures |ds| == |ms|
  {
    seq(|ms|, k requires 0 <= k < |ms| => EscapeDiagnostic(n, ctx.key, ctx.field, ms[k].text, ms[k].replacement))
  }

  /** The diagnostics of the lines, given with their classifications, line by line. */
  function EscapeReport(lines: seq<string>, infos: seq<LineInfo>): seq<EscapeDiagnostic>
    requires |infos| == |lines|
  {
    if lines == [] then []
    else
      var n := |lines| - 1;
      EscapeReport(lines[..n], infos[..n]) + Tagged(ContextAfter(infos), |lines|, EscapesIn(lines[n]))
  }

  /** The escape diagnostics of a text. */
  function LatexEscapeReport(content: string): seq<EscapeDiagnostic> {
    var lines := SplitLines(content);
    EscapeReport(lines, Infos(lines))
  }

  /** One more line: its context follows from the previous one, and its occurrences come last. */
  lemma ReportSnoc(lines: seq<string>, infos: seq<LineInfo>, i: nat)
    requires |infos| == |lines| && i < |lines|
    ensures ContextAfter(infos[..i + 1]) == Enter(ContextAfter(infos[..i]), infos[i])
    ensures EscapeReport(lines[..i + 1], infos[..i + 1])
         == EscapeReport(lines[..i], infos[..i]) + Tagged(ContextAfter(infos[..i + 1]), i + 1, EscapesIn(lines[i]))
  {
    assert infos[..i + 1][..i] == infos[..i];
    assert lines[..i + 1][..i] == lines[..i];
  }

  /** The scan of a line from a position: the escape there, if any, then the rest after it. */
  lemma ScanStep(line: string, hits: seq<Option<Hit>>, i: nat)
    requires Fits(line, hits) && i < |line|
    ensures hits[i].Some? ==>
              MatchesFrom(line, hits, i)
                == [Match(i, line[i..i + hits[i].value.len], hits[i].value.replacement)]
                   + MatchesFrom(line, hits, i + hits[i].value.len)
    ensures hits[i].None? ==> MatchesFrom(line, hits, i) == MatchesFrom(line, hits, i + 1)
  {
  }

  /** Every diagnostic is an occurrence found on its line, attributed to the context in force
      on that line. */
  lemma {:induction false} EscapeReportSound(lines: seq<string>, infos: seq<LineInfo>, d: EscapeDiagnostic)
    requires |infos| == |lines| && d in EscapeReport(lines, infos)
    ensures 1 <= d.line <= |lines|
    ensures Context(d.key, d.field) == ContextAfter(infos[..d.line])
    ensures exists m :: m in EscapesIn(lines[d.line - 1]) && m.text == d.found && m.replacement == d.replacement
  {
    var n := |lines| - 1;
    var ctx := ContextAfter(infos);
    var own := Tagged(ctx, |lines|, EscapesIn(lines[n]));
    if d in EscapeReport(lines[..n], infos[..n]) {
      EscapeReportSound(lines[..n], infos[..n], d);
      assert infos[..n][..d.line] == infos[..d.line];
      assert lines[..n][d.line - 1] == lines[d.line - 1];
    } else {
      assert d in own;
      var k :| 0 <= k < |own| && own[k] == d;
      assert EscapesIn(lines[n])[k] in EscapesIn(lines[n]);
      assert infos[..|lines|] == infos;
    }
  }

  /** Every occurrence on every line is reported, with that line's number and context. */
  lemma {:induction false} EscapeReportComplete(lines: seq<string>, infos: seq<LineInfo>, i: nat, m: Match)
    requires |infos| == |lines| && i < |lines| && m in EscapesIn(lines[i])
    ensures EscapeDiagnostic(i + 1, ContextAfter(infos[..i + 1]).key, ContextAfter(infos[..i + 1]).field,
                             m.text, m.replacement) in EscapeReport(lines, infos)
  {
    var n := |lines| - 1;
    if i < n {
      assert lines[..n][i] == lines[i];
      assert infos[..n][..i + 1] == infos[..i + 1];
      EscapeReportComplete(lines[..n], infos[..n], i, m);
    } else {
      var ms := EscapesIn(lines[n]);
      var k :| 0 <= k < |ms| && ms[k] == m;
      assert infos[..i + 1] == infos;
      assert Tagged(ContextAfter(infos), |lines|, ms)[k] in EscapeReport(lines, infos);
    }
  }

  /** Number of occurrences over all lines. */
  function TotalEscapes(lines: seq<string>): nat {
    if lines == [] then 0 else TotalEscapes(lines[..|lines| - 1]) + |EscapesIn(lines[|lines| - 1])|
  }

  /** One diagnostic per occurrence: several escapes on a line are reported separately. */
  lemma {:induction false} EscapeReportCount(lines: seq<string>, infos: seq<LineInfo>)
    requires |infos| == |lines|
    ensures |EscapeReport(lines, infos)| == TotalEscapes(lines)
  {
    if lines != [] {
      var n := |lines| - 1;
      EscapeReportCount(lines[..n], infos[..n]);
    }
  }

  /** Lines without a backslash give no diagnostic. */
  lemma {:induction false} PlainLinesSilent(lines: seq<string>, infos: seq<LineInfo>)
    requires |infos| == |lines| && forall l :: l in lines ==> '\\' !in l
    ensures EscapeReport(lines, infos) == []
  {
    if lines != [] {
      var n := |lines| - 1;
      assert lines[n] in lines;
      NoBackslashNoEscape(lines[n]);
      assert forall l :: l in lines[..n] ==> l in lines;
      PlainLinesSilent(lines[..n], infos[..n]);
    }
  }

  /** A text without a backslash, already in plain Unicode, gives no diagnostic. */
  lemma CleanTextSilent(content: string)
    requires '\\' !in content
    ensures LatexEscapeReport(content) == []
  {
    SplitLinesWithout(content, '\\');
    PlainLinesSilent(SplitLines(content), Infos(SplitLines(content)));
  }

  /** The key in force on line n is the key of the last header at or before it (none for an
      `@comment` header). */
  lemma {:induction false} ContextKey(infos: seq<LineInfo>, h: nat, n: nat)
    requires 1 <= h <= n <= |infos| && infos[h - 1].header
    requires forall g :: h <= g < n ==> !infos[g].header
    ensures ContextAfter(infos[..n]).key == infos[h - 1].key
  {
    assert infos[..n][..n - 1] == infos[..n - 1];
    if n > h {
      ContextKey(infos, h, n - 1);
    }
  }

  /** Before the first header there is no key. */
  lemma {:induction false} ContextKeyBeforeHeaders(infos: seq<LineInfo>, n: nat)
    requires n <= |infos| && forall g :: 0 <= g < n ==> !infos[g].header
    ensures ContextAfter(infos[..n]).key == None
  {
    if n > 0 {
      assert infos[..n][..n - 1] == infos[..n - 1];
      ContextKeyBeforeHeaders(infos, n - 1);
    }
  }

  /** The field in force on line n is the one declared on line f when no later line up to n
      declares a field or starts an entry. */
  lemma {:induction false} ContextField(infos: seq<LineInfo>, f: nat, n: nat)
    requires 1 <= f <= n <= |infos| && infos[f - 1].field.Some?
    requires forall g :: f <= g < n ==> !infos[g].header && infos[g].field.None?
    ensures ContextAfter(infos[..n]).field == infos[f - 1].field
  {
    assert infos[..n][..n - 1] == infos[..n - 1];
    if n > f {
      ContextField(infos, f, n - 1);
    }
  }

  /** The occurrences of one line: the escape recognised at each position, then a scan left to
      right that resumes after each occurrence. */
  method FindEscapes(line: string) returns (found: seq<Match>)
    ensures found == EscapesIn(line)
  {
    var hits := Hits(line);
    HitsFit(line);
    found := [];
    var i := 0;
    while i < |line|
      invariant 0 <= i <= |line|
      invariant found + MatchesFrom(line, hits, i) == EscapesIn(line)
      decreases |line| - i
    {
      ScanStep(line, hits, i);
      match hits[i]
      case Some(h) =>
        found := found + [Match(i, line[i..i + h.len], h.replacement)];
        i := i + h.len;
      case None =>
        i := i + 1;
    }
  }

  /** The detector: the text line by line, the context updated on each line before its
      escapes are reported. */
  method CheckLatexEscapes(content: string) returns (report: seq<EscapeDiagnostic>)
    ensures report == LatexEscapeReport(content)
  {
    var lines := SplitLines(content);
    var infos := ClassifyLines(lines);
    var ctx := NoContext;
    report := [];
    var i := 0;
    while i < |lines|
      invariant 0 <= i <= |lines|
      invariant ctx == ContextAfter(infos[..i])
      invariant report == EscapeReport(lines[..i], infos[..i])
    {
      ReportSnoc(lines, infos, i);
      ctx := Enter(ctx, infos[i]);
      var found := FindEscapes(lines[i]);
      report := report + Tagged(ctx, i + 1, found);
      i := i + 1;
    }
    Whole(lines);
    Whole(infos);
  }
}
