/** What a deduplication run promises about its result, stated over the inputs. */
module DedupeFacts {

  import opened Wrappers
  import opened Text
  import opened Importance
  import opened Doi
  import opened KeyMerge
  import opened DoiMerge
  import opened Chunking
  import opened Dedupe
  import FieldScanner
  import opened Seqs

  /** The entries of all inputs, in reading order. */
  function Inputs(files: seq<string>): seq<Item> {
    Items(AllRecords(files))
  }

  // ---------------------------------------------------------------------------------------
  // Helpers about the survivors of the DOI pass

  /** The keys of the order that were removed, in order. */
  function Dropped(order: seq<string>, gone: seq<string>): (ds: seq<string>)
    ensures forall k :: k in ds <==> k in order && k in gone
  {
    if order == [] then []
    else
      var k := order[|order| - 1];
      Dropped(order[..|order| - 1], gone) + if k in gone then [k] else []
  }

  lemma {:induction false} SurvivorsDistinct(order: seq<string>, alive: map<string, Kept>)
    requires NoRepeats(order)
    ensures NoRepeats(Survivors(order, alive))
  {
    if order != [] {
      var init := order[..|order| - 1];
      var k := order[|order| - 1];
      assert NoRepeats(init);
      SurvivorsDistinct(init, alive);
      assert k !in init;
    }
  }

  lemma {:induction false} DroppedDistinct(order: seq<string>, gone: seq<string>)
    requires NoRepeats(order)
    ensures NoRepeats(Dropped(order, gone))
  {
    if order != [] {
      var init := order[..|order| - 1];
      var k := order[|order| - 1];
      assert NoRepeats(init);
      DroppedDistinct(init, gone);
      assert k !in init;
    }
  }

  /** Each key of the order is either a survivor or removed. */
  lemma {:induction false} SurvivorsSplit(order: seq<string>, kept: map<string, Kept>, gone: seq<string>)
    requires forall k :: k in order ==> k in kept
    ensures multiset(order) == multiset(Survivors(order, Alive(kept, gone))) + multiset(Dropped(order, gone))
  {
    if order != [] {
      var init := order[..|order| - 1];
      var k := order[|order| - 1];
      var alive := Alive(kept, gone);
      SurvivorsSplit(init, kept, gone);
      assert order == init + [k];
      if k in gone {
        assert Survivors(order, alive) == Survivors(init, alive);
        assert Dropped(order, gone) == Dropped(init, gone) + [k];
      } else {
        assert Survivors(order, alive) == Survivors(init, alive) + [k];
        assert Dropped(order, gone) == Dropped(init, gone);
      }
    }
  }

  /** A sequence without repeats holds each of its elements once. */
  lemma {:induction false} DistinctCounts(s: seq<string>, x: string)
    requires NoRepeats(s)
    ensures multiset(s)[x] == if x in s then 1 else 0
  {
    if s != [] {
      var init := s[..|s| - 1];
      assert s == init + [s[|s| - 1]];
      assert NoRepeats(init);
      DistinctCounts(init, x);
    }
  }

  lemma SameElementsSameMultiset(a: seq<string>, b: seq<string>)
    requires NoRepeats(a) && NoRepeats(b) && forall x :: x in a <==> x in b
    ensures multiset(a) == multiset(b)
  {
    forall x ensures multiset(a)[x] == multiset(b)[x] {
      DistinctCounts(a, x);
      DistinctCounts(b, x);
    }
  }

  /** The DOI pass reads the key order, one candidate per key. */
  lemma CandsKeys(order: seq<string>, kept: map<string, Kept>)
    ensures CandKeys(Cands(order, kept)) == order
  {
  }

  /** The candidate the DOI pass reads for a kept key. */
  lemma CandAt(order: seq<string>, kept: map<string, Kept>, i: nat)
    requires i < |order| && order[i] in kept
    ensures var c := Cands(order, kept)[i];
            c.key == order[i] && c.doi == ExtractDoi(kept[order[i]].text) && c.level == kept[order[i]].level
  {
  }

  /** The facts of the two passes that the results below share. */
  lemma Stages(files: seq<string>)
    ensures var s := KeyStage(files);
            && NoRepeats(s.order)
            && (forall k :: k in s.kept <==> k in s.order)
            && multiset(s.order) + multiset(s.removed) == multiset(Keys(Inputs(files)))
            && NoRepeats(CandKeys(Cands(s.order, s.kept)))
  {
    KeyPassAccounts(Inputs(files));
    var s := KeyStage(files);
    CandsKeys(s.order, s.kept);
  }

  /** Where a kept key sits in the order. */
  lemma IndexOf(order: seq<string>, k: string) returns (i: nat)
    requires k in order
    ensures i < |order| && order[i] == k
  {
    i :| 0 <= i < |order| && order[i] == k;
  }

  // ---------------------------------------------------------------------------------------
  // What the run promises

  /** Keys in, keys out: every entry read is either written or reported, as many times as its
      key occurs among the inputs. */
  lemma EveryKeyAccounted(files: seq<string>)
    ensures multiset(Written(files)) + multiset(Deduplicated(files).removed) == multiset(Keys(Inputs(files)))
  {
    Stages(files);
    var s := KeyStage(files);
    var cs := Cands(s.order, s.kept);
    var gone := DoiStage(files).removed;
    CandsKeys(s.order, s.kept);
    DoiPassRemoved(cs);
    SurvivorsSplit(s.order, s.kept, gone);
    DroppedDistinct(s.order, gone);
    SameElementsSameMultiset(Dropped(s.order, gone), gone);
  }

  /** No key is written twice. */
  lemma WrittenOnce(files: seq<string>)
    ensures NoRepeats(Written(files))
  {
    Stages(files);
    var s := KeyStage(files);
    SurvivorsDistinct(s.order, Alive(s.kept, DoiStage(files).removed));
  }

  /** The entry written under a key is the first entry read under it, kept verbatim when no
      later copy ranks higher, and with its tag raised to the highest importance seen
      otherwise. */
  lemma WrittenEntry(files: seq<string>, k: string)
    requires k in Written(files)
    ensures k in KeyStage(files).kept && k in Firsts(Inputs(files))
    ensures var e := KeyStage(files).kept[k];
            var first := Firsts(Inputs(files))[k];
            && e.level == Best(Inputs(files), k)
            && (e.level == first.level ==> e.text == first.text)
            && (e.level != first.level ==> e.text == UpgradeImportance(first.text, e.level))
  {
    KeyPassKeeps(Inputs(files));
  }

  /** No two written entries share a DOI. */
  lemma WrittenDoisDistinct(files: seq<string>, a: string, b: string)
    requires a in Written(files) && b in Written(files) && a != b
    requires ExtractDoi(KeyStage(files).kept[a].text).Some?
    ensures ExtractDoi(KeyStage(files).kept[a].text) != ExtractDoi(KeyStage(files).kept[b].text)
  {
    Stages(files);
    var s := KeyStage(files);
    var cs := Cands(s.order, s.kept);
    SurvivorDoisDistinct(cs);
    var i := IndexOf(s.order, a);
    var j := IndexOf(s.order, b);
    assert Survives(cs, i) && Survives(cs, j);
    assert i != j;
  }

  /** An entry that survives the key pass and has no DOI is written. */
  lemma NoDoiWritten(files: seq<string>, k: string)
    requires k in KeyStage(files).kept && ExtractDoi(KeyStage(files).kept[k].text).None?
    ensures k in Written(files)
  {
    Stages(files);
    var s := KeyStage(files);
    var cs := Cands(s.order, s.kept);
    NoDoiSurvives(cs);
    var i := IndexOf(s.order, k);
    assert Survives(cs, i);
  }

  /** An entry that survives the key pass but is not written lost its DOI to a written entry
      that ranks at least as high, and that was inserted earlier when the two rank level. */
  lemma DoiLoserHasWinner(files: seq<string>, k: string)
    requires k in KeyStage(files).kept && k !in Written(files)
    ensures k in Deduplicated(files).removed
    ensures exists w :: w in Written(files) && ExtractDoi(KeyStage(files).kept[w].text) == ExtractDoi(KeyStage(files).kept[k].text)
                        && Rank(KeyStage(files).kept[k].level) <= Rank(KeyStage(files).kept[w].level)
                        && (Rank(KeyStage(files).kept[k].level) == Rank(KeyStage(files).kept[w].level) ==>
                              exists i, j :: 0 <= i < j < |KeyStage(files).order| && KeyStage(files).order[i] == w && KeyStage(files).order[j] == k)
  {
    Stages(files);
    var s := KeyStage(files);
    var cs := Cands(s.order, s.kept);
    var i := IndexOf(s.order, k);
    assert !Survives(cs, i);
    RemovedHasWinner(cs, i);
    var j :| 0 <= j < |cs| && Survives(cs, j) && cs[j].doi == cs[i].doi
             && Rank(cs[i].level) <= Rank(cs[j].level)
             && (Rank(cs[i].level) == Rank(cs[j].level) ==> j < i);
    var w := s.order[j];
    CandAt(s.order, s.kept, i);
    CandAt(s.order, s.kept, j);
    var alive := Alive(s.kept, DoiStage(files).removed);
    assert w in alive;
    assert w in Written(files);
    assert ExtractDoi(s.kept[w].text) == ExtractDoi(s.kept[k].text);
  }

  /** No DOI is declared by two entries. */
  predicate DoisUnshared(items: seq<Item>) {
    forall i, j :: 0 <= i < j < |items| && ExtractDoi(items[i].text).Some? ==>
      ExtractDoi(items[i].text) != ExtractDoi(items[j].text)
  }

  /** Every entry's key is held, with that entry's text. */
  predicate HoldsTexts(kept: map<string, Kept>, items: seq<Item>) {
    forall i :: 0 <= i < |items| ==> items[i].key in kept && kept[items[i].key].text == items[i].text
  }

  /** Inputs without a repeated key and without a shared DOI come out whole: nothing is
      reported, and every entry is written, in reading order, with its own text. */
  lemma NoDuplicatesKeepAll(files: seq<string>)
    requires NoRepeats(Keys(Inputs(files))) && DoisUnshared(Inputs(files))
    ensures Deduplicated(files).removed == []
    ensures Written(files) == Keys(Inputs(files))
    ensures HoldsTexts(KeyStage(files).kept, Inputs(files))
  {
    NoDuplicatesStages(files);
    var s := KeyStage(files);
    assert Alive(s.kept, DoiStage(files).removed) == s.kept;
    SurvivorsAll(s.order, s.kept);
  }

  /** Without repeated keys or shared DOIs, neither pass removes anything. */
  lemma NoDuplicatesStages(files: seq<string>)
    requires NoRepeats(Keys(Inputs(files))) && DoisUnshared(Inputs(files))
    ensures KeyStage(files).removed == [] && DoiStage(files).removed == []
    ensures KeyStage(files).order == Keys(Inputs(files))
    ensures HoldsTexts(KeyStage(files).kept, Inputs(files))
  {
    var items := Inputs(files);
    var s := KeyStage(files);
    assert s == KeyPass(items);
    DistinctKeysKeepAll(items);
    var cs := Cands(s.order, s.kept);
    forall i | 0 <= i < |cs| ensures cs[i].doi == ExtractDoi(items[i].text) {
      CandAt(s.order, s.kept, i);
    }
    DistinctDoisKeepAll(cs);
  }

  lemma {:induction false} SurvivorsAll(order: seq<string>, alive: map<string, Kept>)
    requires forall k :: k in order ==> k in alive
    ensures Survivors(order, alive) == order
  {
    if order != [] {
      SurvivorsAll(order[..|order| - 1], alive);
      assert order == order[..|order| - 1] + [order[|order| - 1]];
    }
  }

  // ---------------------------------------------------------------------------------------
  // Inputs side by side

  lemma {:induction false} ConcatMapAppend<T>(f: string -> seq<T>, a: seq<string>, b: seq<string>)
    ensures ConcatMap(f, a + b) == ConcatMap(f, a) + ConcatMap(f, b)
  {
    if b == [] {
      assert a + b == a;
    } else {
      var init := b[..|b| - 1];
      ConcatMapAppend(f, a, init);
      assert (a + b)[..|a + b| - 1] == a + init;
      assert (a + b)[|a + b| - 1] == b[|b| - 1];
      var x, y, z := ConcatMap(f, a), ConcatMap(f, init), f(b[|b| - 1]);
      assert (x + y) + z == x + (y + z);
    }
  }

  lemma AllRecordsAppend(a: seq<string>, b: seq<string>)
    ensures AllRecords(a + b) == AllRecords(a) + AllRecords(b)
    ensures Warnings(a + b) == Warnings(a) + Warnings(b)
  {
    ConcatMapAppend(FileRecords, a, b);
    ConcatMapAppend(FileWarnings, a, b);
  }

  lemma RecordsAppend(x: seq<Record>, y: seq<Record>)
    ensures Items(x + y) == Items(x) + Items(y)
    ensures CommentTexts(x + y) == CommentTexts(x) + CommentTexts(y)
  {
    ItemsAppend(x, y);
    CommentTextsAppend(x, y);
  }

  lemma {:induction false} ItemsAppend(x: seq<Record>, y: seq<Record>)
    ensures Items(x + y) == Items(x) + Items(y)
  {
    if y == [] {
      assert x + y == x;
    } else {
      var init, last := y[..|y| - 1], y[|y| - 1];
      ItemsAppend(x, init);
      assert (x + y)[..|x + y| - 1] == x + init;
      assert (x + y)[|x + y| - 1] == last;
      var p, q := Items(x), Items(init);
      var r := match last case Entry(k, t, l) => [Item(k, t, l)] case _ => [];
      assert Items(x + y) == (p + q) + r;
      assert (p + q) + r == p + (q + r);
    }
  }

  lemma {:induction false} CommentTextsAppend(x: seq<Record>, y: seq<Record>)
    ensures CommentTexts(x + y) == CommentTexts(x) + CommentTexts(y)
  {
    if y == [] {
      assert x + y == x;
    } else {
      var init, last := y[..|y| - 1], y[|y| - 1];
      CommentTextsAppend(x, init);
      assert (x + y)[..|x + y| - 1] == x + init;
      assert (x + y)[|x + y| - 1] == last;
      var p, q := CommentTexts(x), CommentTexts(init);
      var r := match last case Comment(t) => [t] case _ => [];
      assert CommentTexts(x + y) == (p + q) + r;
      assert (p + q) + r == p + (q + r);
    }
  }

  /** An empty input contributes no record and no warning. */
  lemma EmptyFileQuiet()
    ensures AllRecords([""]) == [Stray]
    ensures Warnings([""]) == []
  {
    EmptyFileRecords();
    assert [""][..0] == [];
    assert SplitLines("") == [""];
    EmptyScan();
  }

  lemma EmptyScan()
    ensures FieldScanner.DuplicateFieldReport([""]) == []
  {
    assert FieldScanner.Infos([""]) == [FieldScanner.Classify("")];
  }

  /** What the rest of a run reads of its inputs is the same with an empty input or without. */
  lemma EmptyFileParts(before: seq<string>, after: seq<string>)
    ensures Items(AllRecords(before + [""] + after)) == Items(AllRecords(before + after))
    ensures CommentTexts(AllRecords(before + [""] + after)) == CommentTexts(AllRecords(before + after))
    ensures Warnings(before + [""] + after) == Warnings(before + after)
  {
    EmptyFileQuiet();
    AllRecordsAppend(before + [""], after);
    AllRecordsAppend(before, [""]);
    AllRecordsAppend(before, after);
    StrayIgnored(AllRecords(before), AllRecords(after));
    var u, v := Warnings(before), Warnings(after);
    assert u + [] == u;
  }

  /** A stray record between others adds no entry and no comment. */
  lemma StrayIgnored(x: seq<Record>, y: seq<Record>)
    ensures Items(x + [Stray] + y) == Items(x + y)
    ensures CommentTexts(x + [Stray] + y) == CommentTexts(x + y)
  {
    RecordsAppend(x + [Stray], y);
    RecordsAppend(x, [Stray]);
    RecordsAppend(x, y);
    assert Items([Stray]) == [] && CommentTexts([Stray]) == [];
    assert Items(x + [Stray]) == Items(x);
    assert CommentTexts(x + [Stray]) == CommentTexts(x);
  }

  /** An empty input, wherever it stands among the others, changes nothing in the result. */
  lemma EmptyFileIgnored(before: seq<string>, after: seq<string>)
    ensures Deduplicated(before + [""] + after) == Deduplicated(before + after)
  {
    EmptyFileParts(before, after);
    assert KeyStage(before + [""] + after) == KeyStage(before + after);
  }

  // ---------------------------------------------------------------------------------------
  // Comment blocks

  lemma {:induction false} CommentMember(rs: seq<Record>, i: nat)
    requires i < |rs| && rs[i].Comment?
    ensures rs[i].text in CommentTexts(rs)
  {
    var init := rs[..|rs| - 1];
    if i < |rs| - 1 {
      CommentMember(init, i);
    }
  }

  /** Every comment block of every input is gathered. */
  lemma CommentsKept(files: seq<string>, f: nat, i: nat)
    requires f < |files| && i < |FileRecords(files[f])| && FileRecords(files[f])[i].Comment?
    ensures FileRecords(files[f])[i].text in CommentTexts(AllRecords(files))
  {
    var one := FileRecords(files[f]);
    Around(files, f);
    AllRecordsAppend(files[..f] + [files[f]], files[f + 1..]);
    AllRecordsAppend(files[..f], [files[f]]);
    assert [files[f]][..0] == [];
    assert AllRecords([files[f]]) == one;
    var x := AllRecords(files[..f]);
    var y := AllRecords(files[f + 1..]);
    assert AllRecords(files) == (x + one) + y;
    RecordsAppend(x + one, y);
    RecordsAppend(x, one);
    CommentMember(one, i);
  }

  /** The gathered comment blocks open the output, ahead of all entries. */
  lemma CommentsFirst(files: seq<string>)
    ensures Render(CommentTexts(AllRecords(files))) <= Deduplicated(files).output
  {
    var head := Render(CommentTexts(AllRecords(files)));
    var s := KeyStage(files);
    var alive := Alive(s.kept, DoiStage(files).removed);
    var body := Render(Texts(Written(files), alive));
    assert Deduplicated(files).output == head + body;
  }
}
