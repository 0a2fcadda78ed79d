/** The duplicate citation key check: every header line that is not `@comment` contributes its
    key; each later occurrence of a key already seen is one diagnostic naming the key, the line
    of its first occurrence and the line where it recurs. Keys are compared exactly, so they are
    case-sensitive. */
module DuplicateKeys {

  import opened Wrappers
  import opened Text
  import opened BibLine
  import opened Occurrences

  /** The key each line contributes, line by line. */
  function LineKeys(lines: seq<string>): (keys: seq<Option<string>>)
    ensures |keys| == |lines|
  {
    if lines == [] then [] else LineKeys(lines[..|lines| - 1]) + [KeyOf(lines[|lines| - 1])]
  }

  lemma {:induction false} LineKeysAt(lines: seq<string>, i: nat)
    requires i < |lines|
    ensures LineKeys(lines)[i] == KeyOf(lines[i])
  {
    if i < |lines| - 1 {
      LineKeysAt(lines[..|lines| - 1], i);
    }
  }

  /** The keys in order, each with its 1-based line number. */
  function KeyEvents(keys: seq<Option<string>>): (occs: seq<Occurrence>)
    ensures |occs| <= |keys|
  {
    if keys == [] then []
    else KeyEvents(keys[..|keys| - 1]) + LineKey(keys[|keys| - 1], |keys|)
  }

  /** The event of one line: its key, if it has one, at line number n. */
  function LineKey(key: Option<string>, n: nat): (e: seq<Occurrence>)
    ensures e == [] || (|e| == 1 && e[0].line == n && key == Some(e[0].name))
  {
    match key
    case None => []
    case Some(k) => [Occurrence(k, n)]
  }

  /** The duplicate-key diagnostics of a text given as lines. */
  function DuplicateKeyReport(lines: seq<string>): seq<Repeat> {
    Repeats(KeyEvents(LineKeys(lines)))
  }

  /** The check over the text, line by line, with a map from key to the line it was first seen on. */
  method CheckDuplicateKeys(content: string) returns (errors: seq<Repeat>)
    ensures errors == DuplicateKeyReport(SplitLines(content))
  {
    var lines := SplitLines(content);
    var seen: map<string, nat> := map[];
    errors := [];
    var i := 0;
    while i < |lines|
      invariant 0 <= i <= |lines|
      invariant seen == FirstLines(KeyEvents(LineKeys(lines[..i])))
      invariant errors == Repeats(KeyEvents(LineKeys(lines[..i])))
    {
      ghost var keys := LineKeys(lines[..i]);
      ghost var occs := KeyEvents(keys);
      var key := KeyOf(lines[i]);
      assert LineKeys(lines[..i + 1]) == keys + [key] by {
        assert lines[..i + 1][..i] == lines[..i];
      }
      assert KeyEvents(keys + [key]) == occs + LineKey(key, i + 1) by {
        assert (keys + [key])[..i] == keys;
      }
      match key {
        case None =>
          assert occs + [] == occs;
        case Some(k) =>
          Snoc(occs, Occurrence(k, i + 1));
          if k in seen {
            errors := errors + [Repeat(k, seen[k], i + 1)];
          } else {
            seen := seen[k := i + 1];
          }
      }
      i := i + 1;
    }
    assert lines[..|lines|] == lines;
  }

  /** Every event is a line's key at that line. */
  lemma {:induction false} KeyEventsSound(keys: seq<Option<string>>, k: nat)
    requires k < |KeyEvents(keys)|
    ensures 1 <= KeyEvents(keys)[k].line <= |keys|
    ensures keys[KeyEvents(keys)[k].line - 1] == Some(KeyEvents(keys)[k].name)
  {
    var init := keys[..|keys| - 1];
    var o := KeyEvents(keys)[k];
    var e := LineKey(keys[|keys| - 1], |keys|);
    assert KeyEvents(keys) == KeyEvents(init) + e;
    if k < |KeyEvents(init)| {
      assert KeyEvents(init)[k] == o;
      KeyEventsSound(init, k);
      assert init[o.line - 1] == keys[o.line - 1];
    } else {
      assert o == e[k - |KeyEvents(init)|];
    }
  }

  /** Every line with a key (so never a `@comment` header) is an event at its own line. */
  lemma {:induction false} KeyEventsComplete(keys: seq<Option<string>>, i: nat)
    requires i < |keys| && keys[i].Some?
    ensures Occurrence(keys[i].value, i + 1) in KeyEvents(keys)
  {
    var init := keys[..|keys| - 1];
    if i < |keys| - 1 {
      assert init[i] == keys[i];
      KeyEventsComplete(init, i);
    }
  }

  /** Events are in strictly increasing line order. */
  lemma {:induction false} KeyEventsAscending(keys: seq<Option<string>>)
    ensures Ascending(KeyEvents(keys))
  {
    if keys != [] {
      var init := keys[..|keys| - 1];
      KeyEventsAscending(init);
      var occs := KeyEvents(init);
      forall j | 0 <= j < |occs| ensures occs[j].line < |keys| {
        KeyEventsSound(init, j);
      }
    }
  }

  /** The key events of a text given as lines. */
  function TextKeys(lines: seq<string>): seq<Occurrence> {
    KeyEvents(LineKeys(lines))
  }

  /** Every header with a key is recorded, at its own line. */
  lemma TextKeysComplete(lines: seq<string>, i: nat)
    requires i < |lines| && KeyOf(lines[i]).Some?
    ensures Occurrence(KeyOf(lines[i]).value, i + 1) in TextKeys(lines)
  {
    LineKeysAt(lines, i);
    KeyEventsComplete(LineKeys(lines), i);
  }

  /** Everything recorded is the key of a header that is not `@comment`, at that header's line. */
  lemma TextKeysSound(lines: seq<string>, name: string, line: nat)
    requires Occurrence(name, line) in TextKeys(lines)
    ensures HeaderWithKey(lines, line, name)
  {
    var k :| 0 <= k < |TextKeys(lines)| && TextKeys(lines)[k] == Occurrence(name, line);
    KeyEventsSound(LineKeys(lines), k);
    LineKeysAt(lines, line - 1);
  }

  /** No diagnostic exactly when no key is recorded twice. */
  lemma NoDuplicateKeysIff(lines: seq<string>)
    ensures DuplicateKeyReport(lines) == [] <==> Distinct(TextKeys(lines))
  {
    RepeatsEmptyIffDistinct(TextKeys(lines));
  }

  /** One diagnostic per extra occurrence: a key on n headers is reported n - 1 times, so the
      report has as many entries as there are headers beyond the first of each key. */
  lemma DuplicateKeyCounts(lines: seq<string>, key: string)
    ensures |DuplicateKeyReport(lines)| == |TextKeys(lines)| - |Names(TextKeys(lines))|
    ensures CountOf(TextKeys(lines), key) >= 1 ==>
              RepeatsOf(DuplicateKeyReport(lines), key) == CountOf(TextKeys(lines), key) - 1
  {
    RepeatsCount(TextKeys(lines));
    RepeatsPerName(TextKeys(lines), key);
  }

  /** Each diagnostic names a key whose first header is at line `first`, and a later header of
      the same key at line `line`. */
  lemma DuplicateKeySound(lines: seq<string>, r: Repeat)
    requires r in DuplicateKeyReport(lines)
    ensures HeadersOf(lines, r)
  {
    ReportOccurs(lines, r);
    HeadersAtEvents(lines, r);
  }

  /** The report's two lines are headers of its key, the first one earlier. */
  predicate HeadersOf(lines: seq<string>, r: Repeat) {
    r.first < r.line && HeaderWithKey(lines, r.first, r.name) && HeaderWithKey(lines, r.line, r.name)
  }

  /** Line n (counted from 1) is a header with the given key. */
  predicate HeaderWithKey(lines: seq<string>, n: nat, key: string) {
    1 <= n <= |lines| && KeyOf(lines[n - 1]) == Some(key)
  }

  lemma HeadersAtEvents(lines: seq<string>, r: Repeat)
    requires Occurrence(r.name, r.first) in TextKeys(lines) && Occurrence(r.name, r.line) in TextKeys(lines)
    requires r.first < r.line
    ensures HeadersOf(lines, r)
  {
    TextKeysSound(lines, r.name, r.first);
    TextKeysSound(lines, r.name, r.line);
  }

  lemma ReportOccurs(lines: seq<string>, r: Repeat)
    requires r in DuplicateKeyReport(lines)
    ensures Occurrence(r.name, r.first) in TextKeys(lines) && Occurrence(r.name, r.line) in TextKeys(lines)
    ensures r.first < r.line
  {
    KeyEventsAscending(LineKeys(lines));
    RepeatOccurs(TextKeys(lines), r);
  }

  /** In a stream read in line order, a report's two occurrences are both in the stream, the
      first one earlier. */
  lemma RepeatOccurs(occs: seq<Occurrence>, r: Repeat)
    requires Ascending(occs) && r in Repeats(occs)
    ensures Occurrence(r.name, r.first) in occs && Occurrence(r.name, r.line) in occs && r.first < r.line
  {
    var k :| 0 <= k < |Repeats(occs)| && Repeats(occs)[k] == r;
    RepeatsSound(occs, k);
    var i, j :| 0 <= i < j < |occs| && IsFirst(occs, i)
                && occs[i] == Occurrence(r.name, r.first) && occs[j] == Occurrence(r.name, r.line);
    assert occs[i] in occs && occs[j] in occs;
  }

  /** A `@comment` header never takes part in the check: nothing is recorded at its line. */
  lemma CommentHeaderNoKey(lines: seq<string>, i: nat)
    requires i < |lines| && IsCommentHeader(lines[i])
    ensures forall o :: o in TextKeys(lines) ==> o.line != i + 1
  {
    forall o | o in TextKeys(lines) ensures o.line != i + 1 {
      TextKeysSound(lines, o.name, o.line);
    }
  }

  /** A text of two header lines `@t1{k1,...` and `@t2{k2,...` whose keys differ, even only in
      letter case, gets no diagnostic. */
  lemma DistinctKeysPass(t1: string, k1: string, r1: string, t2: string, k2: string, r2: string)
    requires TypeName(t1) && TypeName(t2) && PlainKey(k1) && PlainKey(k2) && k1 != k2
    requires '\n' !in HeaderText(t1, k1, r1) && '\n' !in HeaderText(t2, k2, r2)
    ensures DuplicateKeyReport(SplitLines(HeaderText(t1, k1, r1) + "\n" + HeaderText(t2, k2, r2))) == []
  {
    var l1, l2 := HeaderText(t1, k1, r1), HeaderText(t2, k2, r2);
    TwoLineKeys(l1, l2);
    HeaderLine(t1, k1, r1);
    HeaderLine(t2, k2, r2);
    TwoKeysReport(KeyOf(l1), KeyOf(l2));
  }

  /** The keys of a two-line text are those of its two lines. */
  lemma TwoLineKeys(l1: string, l2: string)
    requires '\n' !in l1 && '\n' !in l2
    ensures DuplicateKeyReport(SplitLines(l1 + "\n" + l2)) == Repeats(KeyEvents([KeyOf(l1), KeyOf(l2)]))
  {
    SplitCons(l1, l2);
    assert SplitLines(l2) == [l2];
    var lines := [l1] + [l2];
    assert SplitLines(l1 + "\n" + l2) == lines;
    assert lines[..1] == [l1] && [l1][..0] == [];
    assert LineKeys(lines) == [KeyOf(l1), KeyOf(l2)];
  }

  /** Two lines whose keys differ, or of which at most one has a key, repeat no key. */
  lemma TwoKeysReport(a: Option<string>, b: Option<string>)
    requires a.None? || b.None? || a != b
    ensures Repeats(KeyEvents([a, b])) == []
  {
    if a.Some? && b.Some? {
      TwoKeysNoRepeat(a.value, b.value);
    } else {
      AtMostOneKey(a, b);
    }
  }

  /** Two lines of which one has no key repeat nothing. */
  lemma AtMostOneKey(a: Option<string>, b: Option<string>)
    requires a.None? || b.None?
    ensures Repeats(KeyEvents([a, b])) == []
  {
    var ks := [a, b];
    assert ks[..1] == [a] && [a][..0] == [];
    var occs := KeyEvents(ks);
    assert occs == LineKey(a, 1) + LineKey(b, 2) by {
      assert KeyEvents([a]) == [] + LineKey(a, 1);
    }
    RepeatsEmptyIffDistinct(occs);
  }

  /** `@article{Test2020, title = {A}}` and `@article{test2020, title = {B}}` on two lines:
      keys that differ only in letter case are different keys. */
  lemma CaseSensitiveKeys()
    ensures DuplicateKeyReport(SplitLines(HeaderText("article", "Test2020", " title = {A}}") + "\n"
                                          + HeaderText("article", "test2020", " title = {B}}"))) == []
  {
    var t, r1, r2 := "article", " title = {A}}", " title = {B}}";
    assert TypeName(t);
    assert PlainKey("Test2020") && PlainKey("test2020");
    assert '\n' !in HeaderText(t, "Test2020", r1) && '\n' !in HeaderText(t, "test2020", r2);
    assert "Test2020"[0] != "test2020"[0];
    DistinctKeysPass(t, "Test2020", r1, t, "test2020", r2);
  }

  /** Two different keys on lines 1 and 2 repeat nothing. */
  lemma TwoKeysNoRepeat(k1: string, k2: string)
    requires k1 != k2
    ensures Repeats(KeyEvents([Some(k1), Some(k2)])) == []
  {
    var ks := [Some(k1), Some(k2)];
    var o1, o2 := Occurrence(k1, 1), Occurrence(k2, 2);
    assert KeyEvents(ks[..1]) == [o1] by {
      assert ks[..1][..0] == [];
    }
    assert KeyEvents(ks) == [o1, o2];
    assert Distinct([o1, o2]);
    RepeatsEmptyIffDistinct([o1, o2]);
  }
}
