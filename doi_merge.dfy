/** The second pass of the deduplication: the entries that survived the key pass are taken in
    insertion order and merged by normalised DOI. The first entry seen with a DOI owns it; a
    later entry with the same DOI and a strictly higher importance takes it over and the
    previous owner is removed, otherwise the later entry is removed. Every removed key is
    reported. Entries without a DOI take no part. */
module DoiMerge {

  import opened Wrappers
  import opened Importance
  import opened KeyMerge

  /** An entry as the DOI pass sees it. */
  datatype Cand = Cand(key: string, doi: Option<string>, level: Level)

  /** The owner of each DOI seen so far, and the keys removed. */
  datatype DoiState = DoiState(owner: map<string, Cand>, removed: seq<string>)

  function DoiStep(s: DoiState, c: Cand): DoiState {
    match c.doi
    case None => s
    case Some(d) =>
      if d !in s.owner then DoiState(s.owner[d := c], s.removed)
      else if Rank(c.level) > Rank(s.owner[d].level) then DoiState(s.owner[d := c], s.removed + [s.owner[d].key])
      else DoiState(s.owner, s.removed + [c.key])
  }

  function DoiPass(cs: seq<Cand>): DoiState {
    if cs == [] then DoiState(map[], [])
    else DoiStep(DoiPass(cs[..|cs| - 1]), cs[|cs| - 1])
  }

  function CandKeys(cs: seq<Cand>): (ks: seq<string>)
    ensures |ks| == |cs| && forall i :: 0 <= i < |cs| ==> ks[i] == cs[i].key
  {
    seq(|cs|, i requires 0 <= i < |cs| => cs[i].key)
  }

  lemma DoiPassSnoc(cs: seq<Cand>, c: Cand)
    ensures DoiPass(cs + [c]) == DoiStep(DoiPass(cs), c)
  {
    assert (cs + [c])[..|cs|] == cs;
  }

  // ---------------------------------------------------------------------------------------
  // The invariant of the pass, one fact at a time

  /** Each owner carries the DOI it owns. */
  ghost predicate OwnersCarry(s: DoiState) {
    forall d :: d in s.owner ==> s.owner[d].doi == Some(d)
  }

  /** Each owner is one of the entries read. */
  ghost predicate OwnersRead(s: DoiState, cs: seq<Cand>) {
    forall d :: d in s.owner ==> s.owner[d] in cs
  }

  /** No owner is removed. */
  ghost predicate OwnersKept(s: DoiState) {
    forall d :: d in s.owner ==> s.owner[d].key !in s.removed
  }

  /** Every entry read with a DOI is that DOI's owner or removed. */
  ghost predicate Covered(s: DoiState, cs: seq<Cand>) {
    forall i :: 0 <= i < |cs| && cs[i].doi.Some? ==>
      cs[i].doi.value in s.owner && (cs[i] == s.owner[cs[i].doi.value] || cs[i].key in s.removed)
  }

  /** No entry read ranks above the owner of its DOI. */
  ghost predicate Ranked(s: DoiState, cs: seq<Cand>) {
    forall i :: 0 <= i < |cs| && cs[i].doi.Some? && cs[i].doi.value in s.owner ==>
      Rank(cs[i].level) <= Rank(s.owner[cs[i].doi.value].level)
  }

  /** Every entry read before the owner of its DOI ranks strictly below it: on a tie the
      earlier entry keeps the DOI. */
  ghost predicate TiesFirst(s: DoiState, cs: seq<Cand>) {
    forall i, j :: 0 <= i < j < |cs| && cs[i].doi.Some? && cs[j].doi == cs[i].doi
                   && cs[i].doi.value in s.owner && cs[j] == s.owner[cs[i].doi.value] ==>
      Rank(cs[i].level) < Rank(cs[j].level)
  }

  /** Only keys read are removed, each once, and never the key of an entry without a DOI. */
  ghost predicate RemovedSound(s: DoiState, cs: seq<Cand>) {
    && NoRepeats(s.removed)
    && (forall r :: r in s.removed ==> r in CandKeys(cs))
    && (forall i :: 0 <= i < |cs| && cs[i].doi.None? ==> cs[i].key !in s.removed)
  }

  ghost predicate DoiInvariant(s: DoiState, cs: seq<Cand>) {
    && OwnersCarry(s) && OwnersRead(s, cs) && OwnersKept(s)
    && Covered(s, cs) && Ranked(s, cs) && TiesFirst(s, cs) && RemovedSound(s, cs)
  }

  /** Entries with the same key are the same entry. */
  lemma SameKeySame(cs: seq<Cand>, a: Cand, b: Cand)
    requires NoRepeats(CandKeys(cs)) && a in cs && b in cs && a.key == b.key
    ensures a == b
  {
    var i :| 0 <= i < |cs| && cs[i] == a;
    var j :| 0 <= j < |cs| && cs[j] == b;
    assert CandKeys(cs)[i] == CandKeys(cs)[j];
  }

  /** A fresh key is not among the keys read. */
  lemma FreshKey(cs: seq<Cand>, c: Cand)
    requires NoRepeats(CandKeys(cs + [c]))
    ensures c.key !in CandKeys(cs)
  {
    forall i | 0 <= i < |cs| ensures CandKeys(cs)[i] != c.key {
      assert CandKeys(cs + [c])[i] == CandKeys(cs)[i];
      assert CandKeys(cs + [c])[|cs|] == c.key;
    }
  }

  lemma CarryStep(s: DoiState, c: Cand)
    requires OwnersCarry(s)
    ensures OwnersCarry(DoiStep(s, c))
  {
  }

  lemma ReadStep(s: DoiState, cs: seq<Cand>, c: Cand)
    requires OwnersRead(s, cs)
    ensures OwnersRead(DoiStep(s, c), cs + [c])
  {
    var t := DoiStep(s, c);
    forall d | d in t.owner ensures t.owner[d] in cs + [c] {
      if t.owner[d] != c {
        assert d in s.owner && t.owner[d] == s.owner[d];
      }
    }
  }

  lemma KeptStep(s: DoiState, cs: seq<Cand>, c: Cand)
    requires OwnersCarry(s) && OwnersRead(s, cs) && OwnersKept(s)
    requires forall r :: r in s.removed ==> r in CandKeys(cs)
    requires NoRepeats(CandKeys(cs + [c]))
    ensures OwnersKept(DoiStep(s, c))
  {
    FreshKey(cs, c);
    var t := DoiStep(s, c);
    if c.doi.Some? && c.doi.value in s.owner {
      var d := c.doi.value;
      var o := s.owner[d];
      assert o in cs;
      assert o.key in CandKeys(cs);
      forall d' | d' in t.owner ensures t.owner[d'].key !in t.removed {
        if d' != d && Rank(c.level) > Rank(o.level) {
          assert s.owner[d'] in cs;
          if s.owner[d'].key == o.key {
            SameKeySame(cs + [c], s.owner[d'], o);
          }
        }
      }
    }
  }

  lemma CoveredStep(s: DoiState, cs: seq<Cand>, c: Cand)
    requires Covered(s, cs)
    ensures Covered(DoiStep(s, c), cs + [c])
  {
    var t := DoiStep(s, c);
    var cs' := cs + [c];
    forall i | 0 <= i < |cs'| && cs'[i].doi.Some?
      ensures cs'[i].doi.value in t.owner && (cs'[i] == t.owner[cs'[i].doi.value] || cs'[i].key in t.removed)
    {
      if i < |cs| {
        assert cs'[i] == cs[i];
      }
    }
  }

  lemma RankedStep(s: DoiState, cs: seq<Cand>, c: Cand)
    requires Covered(s, cs) && Ranked(s, cs)
    ensures Ranked(DoiStep(s, c), cs + [c])
  {
    var t := DoiStep(s, c);
    var cs' := cs + [c];
    forall i | 0 <= i < |cs'| && cs'[i].doi.Some? && cs'[i].doi.value in t.owner
      ensures Rank(cs'[i].level) <= Rank(t.owner[cs'[i].doi.value].level)
    {
      if i < |cs| {
        assert cs'[i] == cs[i];
      }
    }
  }

  lemma TiesStep(s: DoiState, cs: seq<Cand>, c: Cand)
    requires OwnersRead(s, cs) && Covered(s, cs) && Ranked(s, cs) && TiesFirst(s, cs)
    requires NoRepeats(CandKeys(cs + [c]))
    ensures TiesFirst(DoiStep(s, c), cs + [c])
  {
    FreshKey(cs, c);
    var t := DoiStep(s, c);
    var cs' := cs + [c];
    forall i, j | 0 <= i < j < |cs'| && cs'[i].doi.Some? && cs'[j].doi == cs'[i].doi
                  && cs'[i].doi.value in t.owner && cs'[j] == t.owner[cs'[i].doi.value]
      ensures Rank(cs'[i].level) < Rank(cs'[j].level)
    {
      var d := cs'[i].doi.value;
      assert cs'[i] == cs[i];
      if j < |cs| {
        assert cs'[j] == cs[j];
      } else if d in s.owner && t.owner[d] == s.owner[d] {
        assert s.owner[d] in cs;
        assert s.owner[d].key in CandKeys(cs);
      }
    }
  }

  lemma RemovedStep(s: DoiState, cs: seq<Cand>, c: Cand)
    requires OwnersCarry(s) && OwnersRead(s, cs) && OwnersKept(s) && RemovedSound(s, cs)
    requires NoRepeats(CandKeys(cs + [c]))
    ensures RemovedSound(DoiStep(s, c), cs + [c])
  {
    FreshKey(cs, c);
    var t := DoiStep(s, c);
    var cs' := cs + [c];
    assert CandKeys(cs') == CandKeys(cs) + [c.key];
    if c.doi.Some? && c.doi.value in s.owner {
      var d := c.doi.value;
      var r := if Rank(c.level) > Rank(s.owner[d].level) then s.owner[d] else c;
      assert t.removed == s.removed + [r.key];
      assert r in cs' && r.doi.Some?;
      forall i | 0 <= i < |cs'| && cs'[i].doi.None? ensures cs'[i].key != r.key {
        if cs'[i].key == r.key {
          SameKeySame(cs', cs'[i], r);
        }
      }
    }
  }

  lemma DoiInvariantStep(s: DoiState, cs: seq<Cand>, c: Cand)
    requires DoiInvariant(s, cs) && NoRepeats(CandKeys(cs + [c]))
    ensures DoiInvariant(DoiStep(s, c), cs + [c])
  {
    CarryStep(s, c);
    ReadStep(s, cs, c);
    KeptStep(s, cs, c);
    CoveredStep(s, cs, c);
    RankedStep(s, cs, c);
    TiesStep(s, cs, c);
    RemovedStep(s, cs, c);
  }

  lemma {:induction false} DoiPassInvariant(cs: seq<Cand>)
    requires NoRepeats(CandKeys(cs))
    ensures DoiInvariant(DoiPass(cs), cs)
  {
    if cs != [] {
      var init := cs[..|cs| - 1];
      var c := cs[|cs| - 1];
      assert cs == init + [c];
      assert NoRepeats(CandKeys(init)) by {
        forall i, j | 0 <= i < j < |init| ensures CandKeys(init)[i] != CandKeys(init)[j] {
          assert CandKeys(cs)[i] == CandKeys(init)[i] && CandKeys(cs)[j] == CandKeys(init)[j];
        }
      }
      DoiPassInvariant(init);
      DoiPassSnoc(init, c);
      DoiInvariantStep(DoiPass(init), init, c);
    }
  }

  // ---------------------------------------------------------------------------------------
  // What the DOI pass promises

  /** The survivors of the pass: the entries whose key was not removed. */
  predicate Survives(cs: seq<Cand>, i: nat)
    requires i < |cs|
  {
    cs[i].key !in DoiPass(cs).removed
  }

  /** No two survivors share a DOI. */
  lemma SurvivorDoisDistinct(cs: seq<Cand>)
    requires NoRepeats(CandKeys(cs))
    ensures forall i, j :: 0 <= i < j < |cs| && Survives(cs, i) && Survives(cs, j) && cs[i].doi.Some? ==> cs[i].doi != cs[j].doi
  {
    DoiPassInvariant(cs);
    var s := DoiPass(cs);
    forall i, j | 0 <= i < j < |cs| && Survives(cs, i) && Survives(cs, j) && cs[i].doi.Some?
      ensures cs[i].doi != cs[j].doi
    {
      assert CandKeys(cs)[i] != CandKeys(cs)[j];
    }
  }

  /** An entry without a DOI survives. */
  lemma NoDoiSurvives(cs: seq<Cand>)
    requires NoRepeats(CandKeys(cs))
    ensures forall i :: 0 <= i < |cs| && cs[i].doi.None? ==> Survives(cs, i)
  {
    DoiPassInvariant(cs);
  }

  /** A removed entry has a surviving entry with its DOI and at least its importance, which
      comes first when the two rank level. */
  lemma RemovedHasWinner(cs: seq<Cand>, i: nat)
    requires NoRepeats(CandKeys(cs)) && i < |cs| && !Survives(cs, i)
    ensures exists j :: 0 <= j < |cs| && Survives(cs, j) && cs[j].doi == cs[i].doi
                        && Rank(cs[i].level) <= Rank(cs[j].level)
                        && (Rank(cs[i].level) == Rank(cs[j].level) ==> j < i)
  {
    DoiPassInvariant(cs);
    var s := DoiPass(cs);
    assert cs[i].doi.Some?;
    var d := cs[i].doi.value;
    var o := s.owner[d];
    assert o in cs;
    var j :| 0 <= j < |cs| && cs[j] == o;
    assert j != i;
    assert Survives(cs, j) && cs[j].doi == cs[i].doi && Rank(cs[i].level) <= Rank(cs[j].level);
  }

  /** Removed keys are keys of entries read, each removed once. */
  lemma DoiPassRemoved(cs: seq<Cand>)
    requires NoRepeats(CandKeys(cs))
    ensures NoRepeats(DoiPass(cs).removed)
    ensures forall r :: r in DoiPass(cs).removed ==> r in CandKeys(cs)
  {
    DoiPassInvariant(cs);
  }

  /** Without shared DOIs nothing is removed. */
  lemma {:induction false} DistinctDoisKeepAll(cs: seq<Cand>)
    requires forall i, j :: 0 <= i < j < |cs| && cs[i].doi.Some? ==> cs[i].doi != cs[j].doi
    ensures DoiPass(cs).removed == []
    ensures forall d :: d in DoiPass(cs).owner ==> exists i :: 0 <= i < |cs| && cs[i].doi == Some(d)
  {
    if cs != [] {
      var init := cs[..|cs| - 1];
      var c := cs[|cs| - 1];
      assert cs == init + [c];
      DistinctDoisKeepAll(init);
      DoiPassSnoc(init, c);
      forall d | d in DoiPass(cs).owner ensures exists i :: 0 <= i < |cs| && cs[i].doi == Some(d) {
        if d in DoiPass(init).owner {
          var i :| 0 <= i < |init| && init[i].doi == Some(d);
          assert cs[i] == init[i];
        } else {
          assert cs[|cs| - 1].doi == Some(d);
        }
      }
    }
  }
}
