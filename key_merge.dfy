/** The first pass of the deduplication: entries are taken in input order and merged by
    citation key. The first entry seen under a key is kept; every later one is a duplicate, its
    key is reported, and its text is dropped. When the duplicate's importance is strictly
    higher, the kept entry's tag is rewritten to that level (its text is otherwise kept). */
module KeyMerge {

  import opened Text
  import opened Importance

  /** An entry as the merge sees it: key, verbatim text, importance. */
  datatype Item = Item(key: string, text: string, level: Level)

  /** What the map holds for a key: the text to write and its importance. */
  datatype Kept = Kept(text: string, level: Level)

  /** The map from key to kept entry, the keys in the order they were first inserted, and the
      keys reported as duplicates. */
  datatype KeyState = KeyState(kept: map<string, Kept>, order: seq<string>, removed: seq<string>)

  predicate NoRepeats(s: seq<string>) {
    forall i, j :: 0 <= i < j < |s| ==> s[i] != s[j]
  }

  /** One entry merged into the state. */
  function KeyStep(s: KeyState, e: Item): KeyState {
    if e.key in s.kept then
      var held := s.kept[e.key];
      var kept := if Rank(e.level) > Rank(held.level)
                  then s.kept[e.key := Kept(UpgradeImportance(held.text, e.level), e.level)]
                  else s.kept;
      KeyState(kept, s.order, s.removed + [e.key])
    else
      KeyState(s.kept[e.key := Kept(e.text, e.level)], s.order + [e.key], s.removed)
  }

  /** The state after merging the entries in order. */
  function KeyPass(items: seq<Item>): KeyState {
    if items == [] then KeyState(map[], [], [])
    else KeyStep(KeyPass(items[..|items| - 1]), items[|items| - 1])
  }

  function Keys(items: seq<Item>): (ks: seq<string>)
    ensures |ks| == |items| && forall i :: 0 <= i < |items| ==> ks[i] == items[i].key
  {
    seq(|items|, i requires 0 <= i < |items| => items[i].key)
  }

  // ---------------------------------------------------------------------------------------
  // Reference definitions, independent of the merge

  /** The first entry under each key. */
  function Firsts(items: seq<Item>): map<string, Item> {
    if items == [] then map[]
    else
      var f := Firsts(items[..|items| - 1]);
      var e := items[|items| - 1];
      if e.key in f then f else f[e.key := e]
  }

  /** The highest importance among the entries under key k (Low when there are none). */
  function Best(items: seq<Item>, k: string): Level {
    if items == [] then Low
    else
      var e := items[|items| - 1];
      if e.key == k then Max(Best(items[..|items| - 1], k), e.level) else Best(items[..|items| - 1], k)
  }

  /** Every entry carries the importance its text is parsed as. */
  predicate Parsed(items: seq<Item>) {
    forall i :: 0 <= i < |items| ==> items[i].level == ParseImportance(items[i].text)
  }

  lemma {:induction false} FirstsSound(items: seq<Item>, k: string)
    ensures k in Firsts(items) <==> k in Keys(items)
    ensures k in Firsts(items) ==>
              exists i :: 0 <= i < |items| && items[i] == Firsts(items)[k]
                          && items[i].key == k && forall j :: 0 <= j < i ==> items[j].key != k
  {
    if items != [] {
      var init := items[..|items| - 1];
      var e := items[|items| - 1];
      FirstsSound(init, k);
      assert Keys(items) == Keys(init) + [e.key];
      if k in Firsts(init) {
        var i :| 0 <= i < |init| && init[i] == Firsts(init)[k] && init[i].key == k
                 && forall j :: 0 <= j < i ==> init[j].key != k;
        assert items[i] == init[i];
      } else if e.key == k {
        assert forall j :: 0 <= j < |init| ==> init[j].key != k by {
          forall j | 0 <= j < |init| ensures init[j].key != k {
            assert Keys(init)[j] == init[j].key;
          }
        }
        assert items[|items| - 1] == Firsts(items)[k];
      }
    }
  }

  /** Best is the maximum: no entry under k has a higher importance, and some entry under k
      has exactly that importance. */
  lemma {:induction false} BestIsMax(items: seq<Item>, k: string)
    ensures forall i :: 0 <= i < |items| && items[i].key == k ==> Rank(items[i].level) <= Rank(Best(items, k))
    ensures k in Keys(items) ==> exists i :: 0 <= i < |items| && items[i].key == k && items[i].level == Best(items, k)
    ensures k !in Keys(items) ==> Best(items, k) == Low
  {
    if items != [] {
      var init := items[..|items| - 1];
      var e := items[|items| - 1];
      BestIsMax(init, k);
      assert forall i :: 0 <= i < |init| ==> items[i] == init[i];
      assert Keys(items) == Keys(init) + [e.key];
      var last := |items| - 1;
      if k in Keys(init) {
        var i :| 0 <= i < |init| && init[i].key == k && init[i].level == Best(init, k);
        if e.key == k && Best(items, k) == e.level {
          assert items[last].key == k && items[last].level == Best(items, k);
        } else {
          assert items[i].key == k && items[i].level == Best(items, k);
        }
      } else if e.key == k {
        assert items[last].key == k && items[last].level == Best(items, k);
      }
    }
  }

  // ---------------------------------------------------------------------------------------
  // What the key pass promises

  lemma KeyPassSnoc(items: seq<Item>, e: Item)
    ensures KeyPass(items + [e]) == KeyStep(KeyPass(items), e)
    ensures Firsts(items + [e]) == (if e.key in Firsts(items) then Firsts(items) else Firsts(items)[e.key := e])
    ensures Best(items + [e], e.key) == Max(Best(items, e.key), e.level)
    ensures forall k :: k != e.key ==> Best(items + [e], k) == Best(items, k)
  {
    assert (items + [e])[..|items|] == items;
  }

  /** The order lists every kept key once, and the order and the reported keys together hold
      exactly the keys read so far. */
  ghost predicate Accounted(s: KeyState, keys: seq<string>) {
    && NoRepeats(s.order)
    && (forall k :: k in s.kept <==> k in s.order)
    && multiset(s.order) + multiset(s.removed) == multiset(keys)
  }

  lemma AccountsStep(s: KeyState, keys: seq<string>, e: Item)
    requires Accounted(s, keys)
    ensures Accounted(KeyStep(s, e), keys + [e.key])
  {
    if e.key !in s.kept {
      var order := s.order + [e.key];
      forall i, j | 0 <= i < j < |order| ensures order[i] != order[j] {
        if j == |order| - 1 {
          assert order[i] in s.order;
        }
      }
    }
  }

  /** Every entry is either the first under its key, and then in the order, or reported once
      as a duplicate: keys in, keys out. */
  lemma {:induction false} KeyPassAccounts(items: seq<Item>)
    ensures Accounted(KeyPass(items), Keys(items))
  {
    if items != [] {
      var init := items[..|items| - 1];
      var e := items[|items| - 1];
      KeyPassAccounts(init);
      KeyPassSnoc(init, e);
      assert items == init + [e];
      assert Keys(items) == Keys(init) + [e.key];
      AccountsStep(KeyPass(init), Keys(init), e);
    }
  }

  /** The kept entry under each key is the first entry's text at the highest importance seen
      under the key: untouched when that is the first entry's own importance, with its tag
      rewritten to it otherwise. */
  ghost predicate KeptAsFirstAtBest(s: KeyState, items: seq<Item>) {
    && (forall k :: k in s.kept <==> k in Firsts(items))
    && forall k :: k in s.kept ==> KeptAt(s.kept[k], Firsts(items)[k], Best(items, k))
  }

  /** The kept entry `held` is the first entry at importance `best`. */
  predicate KeptAt(held: Kept, first: Item, best: Level) {
    && held.level == best
    && Rank(first.level) <= Rank(held.level)
    && (held.level == first.level ==> held.text == first.text)
    && (held.level != first.level ==> held.text == UpgradeImportance(first.text, held.level))
  }

  lemma KeepsStep(s: KeyState, items: seq<Item>, e: Item)
    requires KeptAsFirstAtBest(s, items)
    requires e.key !in Firsts(items) ==> Best(items, e.key) == Low
    ensures KeptAsFirstAtBest(KeyStep(s, e), items + [e])
  {
    KeepsOthers(s, items, e);
    KeepsKey(s, items, e);
  }

  /** The entries under the other keys are left as they were. */
  lemma KeepsOthers(s: KeyState, items: seq<Item>, e: Item)
    requires KeptAsFirstAtBest(s, items)
    ensures forall k :: k in KeyStep(s, e).kept <==> k in Firsts(items + [e])
    ensures forall k :: k in KeyStep(s, e).kept && k != e.key ==>
              KeptAt(KeyStep(s, e).kept[k], Firsts(items + [e])[k], Best(items + [e], k))
  {
    KeyPassSnoc(items, e);
    var t := KeyStep(s, e);
    var f := Firsts(items + [e]);
    forall k | k in t.kept && k != e.key
      ensures t.kept[k] == s.kept[k] && f[k] == Firsts(items)[k] && Best(items + [e], k) == Best(items, k)
    {
    }
  }

  /** The entry under the key just read is the first entry at the best importance. */
  lemma KeepsKey(s: KeyState, items: seq<Item>, e: Item)
    requires KeptAsFirstAtBest(s, items)
    requires e.key !in Firsts(items) ==> Best(items, e.key) == Low
    ensures e.key in KeyStep(s, e).kept && e.key in Firsts(items + [e])
    ensures KeptAt(KeyStep(s, e).kept[e.key], Firsts(items + [e])[e.key], Best(items + [e], e.key))
  {
    KeyPassSnoc(items, e);
    if e.key !in s.kept {
    } else if Rank(e.level) > Rank(s.kept[e.key].level) {
      RaisedStep(s.kept[e.key], Firsts(items)[e.key], e.level);
    }
  }

  /** A raise of the kept entry keeps it the first entry's text at the new importance. */
  lemma RaisedStep(held: Kept, first: Item, level: Level)
    requires Rank(first.level) <= Rank(held.level) < Rank(level)
    requires held.level == first.level ==> held.text == first.text
    requires held.level != first.level ==> held.text == UpgradeImportance(first.text, held.level)
    ensures UpgradeImportance(held.text, level) == UpgradeImportance(first.text, level)
  {
    if held.level != first.level {
      UpgradeTwice(first.text, held.level, level);
    }
  }

  /** The kept entry under each key: the first entry's text, with its tag rewritten to the
      highest importance seen under the key when that is higher than the first entry's own,
      and untouched otherwise. */
  lemma {:induction false} KeyPassKeeps(items: seq<Item>)
    ensures KeptAsFirstAtBest(KeyPass(items), items)
  {
    if items != [] {
      var init := items[..|items| - 1];
      var e := items[|items| - 1];
      KeyPassKeeps(init);
      KeyPassSnoc(init, e);
      assert items == init + [e];
      FirstsSound(init, e.key);
      BestIsMax(init, e.key);
      KeepsStep(KeyPass(init), init, e);
    }
  }

  /** Importance is never lowered, and a kept entry whose first text carries a tag reads back
      as the importance it is kept under. */
  lemma KeptTagReadsBack(items: seq<Item>, k: string)
    requires Parsed(items) && k in KeyPass(items).kept && k in Firsts(items)
    ensures Rank(Firsts(items)[k].level) <= Rank(KeyPass(items).kept[k].level)
    ensures TagOf(SplitLines(Firsts(items)[k].text)).Some? ==>
              ParseImportance(KeyPass(items).kept[k].text) == KeyPass(items).kept[k].level
  {
    KeyPassKeeps(items);
    FirstsSound(items, k);
    var first := Firsts(items)[k];
    var held := KeyPass(items).kept[k];
    var i :| 0 <= i < |items| && items[i] == first && items[i].key == k && forall j :: 0 <= j < i ==> items[j].key != k;
    if TagOf(SplitLines(first.text)).Some? && held.level != first.level {
      UpgradeThenParse(first.text, held.level);
    }
  }

  /** Without repeated keys nothing is reported, every entry is kept in input order, and kept
      with its own text. */
  lemma {:induction false} DistinctKeysKeepAll(items: seq<Item>)
    requires NoRepeats(Keys(items))
    ensures KeyPass(items).removed == []
    ensures KeyPass(items).order == Keys(items)
    ensures forall i :: 0 <= i < |items| ==> items[i].key in KeyPass(items).kept
    ensures forall i :: 0 <= i < |items| ==> KeyPass(items).kept[items[i].key] == Kept(items[i].text, items[i].level)
  {
    if items != [] {
      var init := items[..|items| - 1];
      var e := items[|items| - 1];
      DistinctInit(items);
      DistinctKeysKeepAll(init);
      KeyPassSnoc(init, e);
      assert items == init + [e];
      assert Keys(items) == Keys(init) + [e.key];
      forall i | 0 <= i < |items| ensures KeyPass(items).kept[items[i].key] == Kept(items[i].text, items[i].level) {
        if i < |init| {
          assert items[i] == init[i];
        }
      }
    }
  }

  /** Without repeated keys, the entries before the last are without repeated keys too, and
      none of them has the last one's key. */
  lemma DistinctInit(items: seq<Item>)
    requires items != [] && NoRepeats(Keys(items))
    ensures NoRepeats(Keys(items[..|items| - 1]))
    ensures forall j :: 0 <= j < |items| - 1 ==> items[j].key != items[|items| - 1].key
    ensures items[|items| - 1].key !in KeyPass(items[..|items| - 1]).kept
  {
    var init := items[..|items| - 1];
    var e := items[|items| - 1];
    forall i, j | 0 <= i < j < |Keys(init)| ensures Keys(init)[i] != Keys(init)[j] {
      assert Keys(init)[i] == Keys(items)[i] && Keys(init)[j] == Keys(items)[j];
    }
    forall j | 0 <= j < |init| ensures items[j].key != e.key {
      assert Keys(items)[j] == items[j].key;
    }
    KeyPassAccounts(init);
    assert e.key !in Keys(init);
    assert multiset(Keys(init))[e.key] == 0;
    assert multiset(KeyPass(init).order)[e.key] == 0;
  }
}
