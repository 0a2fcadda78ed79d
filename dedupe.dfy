/** `deduplicate_bib`: several inputs merged into one output. Comment blocks are gathered in
    input order; entries go through the key pass and then the DOI pass; the output holds the
    comments, then the surviving entries in the order their keys were first inserted, each
    trimmed and followed by a blank line. The keys removed by either pass are returned, and the
    duplicate-field check runs over each input as an advisory. */
module Dedupe {

  import opened Wrappers
  import opened Text
  import opened Importance
  import opened Doi
  import opened KeyMerge
  import opened DoiMerge
  import opened Chunking
  import FieldScanner
  import opened Seqs

  // ---------------------------------------------------------------------------------------
  // The specification, stage by stage

  /** What each input yields, input after input. */
  function ConcatMap<T>(f: string -> seq<T>, files: seq<string>): seq<T> {
    if files == [] then [] else ConcatMap(f, files[..|files| - 1]) + f(files[|files| - 1])
  }

  /** The records of all inputs. */
  function AllRecords(files: seq<string>): seq<Record> {
    ConcatMap(FileRecords, files)
  }

  /** The entries among the records. */
  function Items(rs: seq<Record>): seq<Item> {
    if rs == [] then []
    else
      Items(rs[..|rs| - 1]) +
      match rs[|rs| - 1]
      case Entry(k, t, l) => [Item(k, t, l)]
      case _ => []
  }

  /** The texts of the comment blocks among the records. */
  function CommentTexts(rs: seq<Record>): seq<string> {
    if rs == [] then []
    else
      CommentTexts(rs[..|rs| - 1]) +
      match rs[|rs| - 1]
      case Comment(t) => [t]
      case _ => []
  }

  /** The duplicate-field warnings of one input. */
  function FileWarnings(content: string): seq<FieldScanner.DuplicateField> {
    FieldScanner.DuplicateFieldReport(SplitLines(content))
  }

  /** The duplicate-field warnings of all inputs. */
  function Warnings(files: seq<string>): seq<FieldScanner.DuplicateField> {
    ConcatMap(FileWarnings, files)
  }

  /** A kept entry as the DOI pass sees it. */
  function CandOf(k: string, kept: map<string, Kept>): Cand {
    if k in kept then Cand(k, ExtractDoi(kept[k].text), kept[k].level) else Cand(k, None, Low)
  }

  function Cands(order: seq<string>, kept: map<string, Kept>): (cs: seq<Cand>)
    ensures |cs| == |order| && forall i :: 0 <= i < |order| ==> cs[i] == CandOf(order[i], kept)
  {
    seq(|order|, i requires 0 <= i < |order| => CandOf(order[i], kept))
  }

  /** The map without the removed keys. */
  function Alive(kept: map<string, Kept>, gone: seq<string>): (m: map<string, Kept>)
    ensures forall k :: k in m <==> k in kept && k !in gone
  {
    map k | k in kept && k !in gone :: kept[k]
  }

  /** The keys of the order still in the map, in order. */
  function Survivors(order: seq<string>, alive: map<string, Kept>): (sv: seq<string>)
    ensures forall k :: k in sv <==> k in order && k in alive
  {
    if order == [] then []
    else
      var k := order[|order| - 1];
      Survivors(order[..|order| - 1], alive) + if k in alive then [k] else []
  }

  function Texts(ks: seq<string>, alive: map<string, Kept>): (ts: seq<string>)
    requires forall k :: k in ks ==> k in alive
    ensures |ts| == |ks| && forall i :: 0 <= i < |ks| ==> ts[i] == alive[ks[i]].text
  {
    seq(|ks|, i requires 0 <= i < |ks| => alive[ks[i]].text)
  }

  /** Texts written one after another, each trimmed and followed by a blank line. */
  function Render(ts: seq<string>): string {
    if ts == [] then [] else Render(ts[..|ts| - 1]) + Trim(ts[|ts| - 1]) + "\n\n"
  }

  /** What a run produces: the output text, the removed keys, the warnings. */
  datatype Outcome = Outcome(output: string, removed: seq<string>, warnings: seq<FieldScanner.DuplicateField>)

  /** The state after the key pass over all inputs. */
  function KeyStage(files: seq<string>): KeyState {
    KeyPass(Items(AllRecords(files)))
  }

  /** The state after the DOI pass. */
  function DoiStage(files: seq<string>): DoiState {
    var s := KeyStage(files);
    DoiPass(Cands(s.order, s.kept))
  }

  /** The entries written, by key, in order. */
  function Written(files: seq<string>): seq<string> {
    var s := KeyStage(files);
    Survivors(s.order, Alive(s.kept, DoiStage(files).removed))
  }

  function Deduplicated(files: seq<string>): Outcome {
    var rs := AllRecords(files);
    var s := KeyStage(files);
    var d := DoiStage(files);
    var alive := Alive(s.kept, d.removed);
    Outcome(Render(CommentTexts(rs)) + Render(Texts(Written(files), alive)),
            s.removed + d.removed,
            Warnings(files))
  }

  // ---------------------------------------------------------------------------------------
  // Steps of the specification one element at a time

  lemma RecordsSnoc(rs: seq<Record>, r: Record)
    ensures r.Entry? ==> Items(rs + [r]) == Items(rs) + [Item(r.key, r.text, r.level)]
    ensures !r.Entry? ==> Items(rs + [r]) == Items(rs)
    ensures r.Comment? ==> CommentTexts(rs + [r]) == CommentTexts(rs) + [r.text]
    ensures !r.Comment? ==> CommentTexts(rs + [r]) == CommentTexts(rs)
  {
    assert (rs + [r])[..|rs|] == rs;
  }

  lemma FilesSnoc(files: seq<string>, f: nat)
    requires f < |files|
    ensures AllRecords(files[..f + 1]) == AllRecords(files[..f]) + FileRecords(files[f])
    ensures Warnings(files[..f + 1]) == Warnings(files[..f]) + FileWarnings(files[f])
  {
    assert files[..f + 1][..f] == files[..f];
  }

  lemma RenderSnoc(ts: seq<string>, t: string)
    ensures Render(ts + [t]) == Render(ts) + Trim(t) + "\n\n"
  {
    assert (ts + [t])[..|ts|] == ts;
  }

  lemma AliveDrop(kept: map<string, Kept>, gone: seq<string>, x: string)
    ensures Alive(kept, gone + [x]) == Alive(kept, gone) - {x}
  {
  }

  lemma SurvivorsSnoc(order: seq<string>, alive: map<string, Kept>, i: nat)
    requires i < |order| && order[i] in alive
    ensures Texts(Survivors(order[..i + 1], alive), alive) == Texts(Survivors(order[..i], alive), alive) + [alive[order[i]].text]
  {
    assert order[..i + 1][..i] == order[..i];
  }

  lemma SurvivorsSkip(order: seq<string>, alive: map<string, Kept>, i: nat)
    requires i < |order| && order[i] !in alive
    ensures Survivors(order[..i + 1], alive) == Survivors(order[..i], alive)
  {
    assert order[..i + 1][..i] == order[..i];
  }

  // ---------------------------------------------------------------------------------------
  // The run

  /** One entry merged into the key map. */
  method MergeEntry(kept: map<string, Kept>, order: seq<string>, removed: seq<string>, key: string, text: string, level: Level)
    returns (kept': map<string, Kept>, order': seq<string>, removed': seq<string>)
    ensures KeyState(kept', order', removed') == KeyStep(KeyState(kept, order, removed), Item(key, text, level))
  {
    kept', order', removed' := kept, order, removed;
    if key in kept {
      if Rank(level) > Rank(kept[key].level) {
        kept' := kept[key := Kept(UpgradeImportance(kept[key].text, level), level)];
      }
      removed' := removed + [key];
    } else {
      kept' := kept[key := Kept(text, level)];
      order' := order + [key];
    }
  }

  /** One kept entry offered to the DOI index: its key, when it loses, or the key it
      displaces. */
  method ClaimDoi(seen: map<string, Cand>, gone: seq<string>, c: Cand)
    returns (seen': map<string, Cand>, gone': seq<string>, loser: Option<string>)
    ensures DoiState(seen', gone') == DoiStep(DoiState(seen, gone), c)
    ensures loser.None? ==> gone' == gone
    ensures loser.Some? ==> gone' == gone + [loser.value]
  {
    seen', gone', loser := seen, gone, None;
    match c.doi {
      case None =>
      case Some(d) =>
        if d !in seen {
          seen' := seen[d := c];
        } else if Rank(c.level) > Rank(seen[d].level) {
          loser := Some(seen[d].key);
          seen' := seen[d := c];
          gone' := gone + [seen[d].key];
        } else {
          loser := Some(c.key);
          gone' := gone + [c.key];
        }
    }
  }

  /** One record read: a comment block is gathered, an entry merged by key, stray text
      skipped. */
  method MergeRecord(rec: Record, ghost rs: seq<Record>, comments: seq<string>,
                     kept: map<string, Kept>, order: seq<string>, removed: seq<string>)
    returns (comments': seq<string>, kept': map<string, Kept>, order': seq<string>, removed': seq<string>)
    requires comments == CommentTexts(rs) && KeyState(kept, order, removed) == KeyPass(Items(rs))
    ensures comments' == CommentTexts(rs + [rec])
    ensures KeyState(kept', order', removed') == KeyPass(Items(rs + [rec]))
  {
    RecordsSnoc(rs, rec);
    comments', kept', order', removed' := comments, kept, order, removed;
    match rec {
      case Comment(t) =>
        comments' := comments + [t];
      case Entry(k, t, l) =>
        KeyPassSnoc(Items(rs), Item(k, t, l));
        kept', order', removed' := MergeEntry(kept, order, removed, k, t, l);
      case Stray =>
    }
  }

  /** One input read, record after record. */
  method MergeFile(content: string, ghost rs: seq<Record>, comments: seq<string>,
                   kept: map<string, Kept>, order: seq<string>, removed: seq<string>)
    returns (comments': seq<string>, kept': map<string, Kept>, order': seq<string>, removed': seq<string>)
    requires comments == CommentTexts(rs) && KeyState(kept, order, removed) == KeyPass(Items(rs))
    ensures comments' == CommentTexts(rs + FileRecords(content))
    ensures KeyState(kept', order', removed') == KeyPass(Items(rs + FileRecords(content)))
  {
    comments', kept', order', removed' := comments, kept, order, removed;
    var recs := FileRecords(content);
    assert rs + recs[..0] == rs;
    for r := 0 to |recs|
      invariant comments' == CommentTexts(rs + recs[..r])
      invariant KeyState(kept', order', removed') == KeyPass(Items(rs + recs[..r]))
    {
      AppendPrefix(rs, recs, r);
      comments', kept', order', removed' := MergeRecord(recs[r], rs + recs[..r], comments', kept', order', removed');
    }
    assert recs[..|recs|] == recs;
  }

  /** Pass 1 over all inputs, with the duplicate-field check run on each. */
  method ReadAll(files: seq<string>)
    returns (comments: seq<string>, kept: map<string, Kept>, order: seq<string>, removed: seq<string>,
             warnings: seq<FieldScanner.DuplicateField>)
    ensures comments == CommentTexts(AllRecords(files))
    ensures KeyState(kept, order, removed) == KeyStage(files)
    ensures warnings == Warnings(files)
  {
    comments, kept, order, removed, warnings := [], map[], [], [], [];
    for f := 0 to |files|
      invariant warnings == Warnings(files[..f])
      invariant comments == CommentTexts(AllRecords(files[..f]))
      invariant KeyState(kept, order, removed) == KeyPass(Items(AllRecords(files[..f])))
    {
      FilesSnoc(files, f);
      var ws := FieldScanner.CheckDuplicateFields(files[f]);
      warnings := warnings + ws;
      comments, kept, order, removed := MergeFile(files[f], AllRecords(files[..f]), comments, kept, order, removed);
    }
    assert files[..|files|] == files;
  }

  /** Pass 2: each kept entry, in insertion order, offered to the DOI index; a loser is
      deleted from the map. */
  method ResolveDois(order: seq<string>, kept: map<string, Kept>) returns (alive: map<string, Kept>, gone: seq<string>)
    requires forall k :: k in order ==> k in kept
    ensures gone == DoiPass(Cands(order, kept)).removed
    ensures alive == Alive(kept, gone)
  {
    ghost var cs := Cands(order, kept);
    var seen: map<string, Cand> := map[];
    gone := [];
    alive := kept;
    for j := 0 to |order|
      invariant DoiState(seen, gone) == DoiPass(cs[..j])
      invariant alive == Alive(kept, gone)
    {
      var key := order[j];
      var c := Cand(key, ExtractDoi(kept[key].text), kept[key].level);
      assert c == cs[j];
      PrefixSnoc(cs, j);
      DoiPassSnoc(cs[..j], c);
      var loser;
      ghost var before := gone;
      seen, gone, loser := ClaimDoi(seen, gone, c);
      if loser.Some? {
        AliveDrop(kept, before, loser.value);
        alive := alive - {loser.value};
      }
    }
    Whole(cs);
  }

  /** Texts written one after another, each trimmed and followed by a blank line. */
  method RenderTexts(ts: seq<string>) returns (out: string)
    ensures out == Render(ts)
  {
    out := [];
    for i := 0 to |ts|
      invariant out == Render(ts[..i])
    {
      assert ts[..i + 1] == ts[..i] + [ts[i]];
      RenderSnoc(ts[..i], ts[i]);
      out := out + Trim(ts[i]) + "\n\n";
    }
    assert ts[..|ts|] == ts;
  }

  /** The entries still in the map, written in insertion order. */
  method WriteEntries(order: seq<string>, alive: map<string, Kept>) returns (out: string)
    ensures out == Render(Texts(Survivors(order, alive), alive))
  {
    out := [];
    for i := 0 to |order|
      invariant out == Render(Texts(Survivors(order[..i], alive), alive))
    {
      if order[i] in alive {
        SurvivorsSnoc(order, alive, i);
        RenderSnoc(Texts(Survivors(order[..i], alive), alive), alive[order[i]].text);
        out := out + Trim(alive[order[i]].text) + "\n\n";
      } else {
        SurvivorsSkip(order, alive, i);
      }
    }
    assert order[..|order|] == order;
  }

  method Deduplicate(files: seq<string>) returns (output: string, removed: seq<string>, warnings: seq<FieldScanner.DuplicateField>)
    ensures Outcome(output, removed, warnings) == Deduplicated(files)
  {
    var comments, kept, order, keyRemoved;
    comments, kept, order, keyRemoved, warnings := ReadAll(files);
    KeyPassAccounts(Items(AllRecords(files)));
    var alive, doiRemoved := ResolveDois(order, kept);
    var head := RenderTexts(comments);
    var body := WriteEntries(order, alive);
    output := head + body;
    removed := keyRemoved + doiRemoved;
  }
}
