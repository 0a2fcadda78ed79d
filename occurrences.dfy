/** First-occurrence bookkeeping shared by the duplicate-key and duplicate-field checks: a
    stream of named occurrences (a citation key on a header line, a field name on a field
    line), the map from each name to the line where it first occurred, and one report for
    every later occurrence of an already-seen name. */
module Occurrences {

  datatype Occurrence = Occurrence(name: string, line: nat)

  /** A name seen again: where it was first seen and where it recurs. */
  datatype Repeat = Repeat(name: string, first: nat, line: nat)

  function Names(occs: seq<Occurrence>): set<string> {
    set o | o in occs :: o.name
  }

  /** Name -> line of its first occurrence, built occurrence by occurrence. */
  function FirstLines(occs: seq<Occurrence>): (m: map<string, nat>)
    ensures m.Keys == Names(occs)
  {
    if occs == [] then map[]
    else
      var init, o := occs[..|occs| - 1], occs[|occs| - 1];
      assert occs == init + [o];
      var m := FirstLines(init);
      if o.name in m then m else m[o.name := o.line]
  }

  /** One Repeat for every occurrence whose name occurred earlier, in stream order. */
  function Repeats(occs: seq<Occurrence>): seq<Repeat> {
    if occs == [] then []
    else
      var init, o := occs[..|occs| - 1], occs[|occs| - 1];
      var m := FirstLines(init);
      Repeats(init) + (if o.name in m then [Repeat(o.name, m[o.name], o.line)] else [])
  }

  /** No name occurs twice. */
  predicate Distinct(occs: seq<Occurrence>) {
    forall i, j :: 0 <= i < j < |occs| ==> occs[i].name != occs[j].name
  }

  /** Occurrence i is the first one of its name. */
  predicate IsFirst(occs: seq<Occurrence>, i: nat)
    requires i < |occs|
  {
    forall j :: 0 <= j < i ==> occs[j].name != occs[i].name
  }

  /** One more occurrence: the map gains its name if new, the reports gain one if not. */
  lemma Snoc(occs: seq<Occurrence>, o: Occurrence)
    ensures FirstLines(occs + [o]) == if o.name in FirstLines(occs) then FirstLines(occs)
                                      else FirstLines(occs)[o.name := o.line]
    ensures Repeats(occs + [o]) == Repeats(occs) + if o.name in FirstLines(occs)
                                                     then [Repeat(o.name, FirstLines(occs)[o.name], o.line)]
                                                     else []
  {
    assert (occs + [o])[..|occs|] == occs;
  }

  /** Number of occurrences of `name`. */
  function CountOf(occs: seq<Occurrence>, name: string): nat {
    if occs == [] then 0
    else CountOf(occs[..|occs| - 1], name) + (if occs[|occs| - 1].name == name then 1 else 0)
  }

  /** Number of repeats reported for `name`. */
  function RepeatsOf(rs: seq<Repeat>, name: string): nat {
    if rs == [] then 0
    else RepeatsOf(rs[..|rs| - 1], name) + (if rs[|rs| - 1].name == name then 1 else 0)
  }

  lemma NamesSnoc(occs: seq<Occurrence>, o: Occurrence)
    ensures Names(occs + [o]) == Names(occs) + {o.name}
  {
    assert forall x :: x in occs + [o] <==> x in occs || x == o;
  }

  lemma RepeatsOfAppend(a: seq<Repeat>, b: seq<Repeat>, name: string)
    ensures RepeatsOf(a + b, name) == RepeatsOf(a, name) + RepeatsOf(b, name)
    decreases |b|
  {
    if b != [] {
      assert (a + b)[..|a + b| - 1] == a + b[..|b| - 1];
      RepeatsOfAppend(a, b[..|b| - 1], name);
    } else {
      assert a + b == a;
    }
  }

  lemma CountOfPositive(occs: seq<Occurrence>, name: string)
    ensures CountOf(occs, name) > 0 <==> name in Names(occs)
  {
    if occs != [] {
      var init, o := occs[..|occs| - 1], occs[|occs| - 1];
      assert occs == init + [o];
      NamesSnoc(init, o);
      CountOfPositive(init, name);
    }
  }

  /** The map holds, for every name, the line of its first occurrence. */
  lemma {:induction false} FirstLinesAreFirst(occs: seq<Occurrence>, i: nat)
    requires i < |occs| && IsFirst(occs, i)
    ensures occs[i].name in FirstLines(occs) && FirstLines(occs)[occs[i].name] == occs[i].line
  {
    var init, o := occs[..|occs| - 1], occs[|occs| - 1];
    assert occs == init + [o];
    if i < |occs| - 1 {
      assert IsFirst(init, i) by {
        forall j | 0 <= j < i ensures init[j].name != init[i].name {
          assert init[j] == occs[j] && init[i] == occs[i];
        }
      }
      FirstLinesAreFirst(init, i);
    } else {
      assert o.name !in Names(init);
    }
  }

  /** After a run of distinct names, an occurrence of one of them is the only repeat. */
  lemma RepeatAfterDistinct(occs: seq<Occurrence>, o: Occurrence, i: nat)
    requires Distinct(occs) && i < |occs| && occs[i].name == o.name
    ensures Repeats(occs + [o]) == [Repeat(o.name, occs[i].line, o.line)]
  {
    Snoc(occs, o);
    FirstLinesAreFirst(occs, i);
    RepeatsEmptyIffDistinct(occs);
  }

  /** One report per occurrence beyond the first: n occurrences in all, over d distinct names,
      give n - d reports. */
  lemma {:induction false} RepeatsCount(occs: seq<Occurrence>)
    ensures |Repeats(occs)| == |occs| - |Names(occs)|
  {
    if occs != [] {
      var init, o := occs[..|occs| - 1], occs[|occs| - 1];
      assert occs == init + [o];
      NamesSnoc(init, o);
      RepeatsCount(init);
      NamesBound(init);
      var m := FirstLines(init);
      if o.name in m {
        assert Names(occs) == Names(init);
        assert |Repeats(occs)| == |Repeats(init)| + 1;
      } else {
        assert |Names(occs)| == |Names(init)| + 1;
        assert |Repeats(occs)| == |Repeats(init)|;
      }
    }
  }

  lemma {:induction false} NamesBound(occs: seq<Occurrence>)
    ensures |Names(occs)| <= |occs|
  {
    if occs != [] {
      var init, o := occs[..|occs| - 1], occs[|occs| - 1];
      assert occs == init + [o];
      NamesSnoc(init, o);
      NamesBound(init);
    }
  }

  /** A name occurring n >= 1 times is reported exactly n - 1 times. */
  lemma {:induction false} RepeatsPerName(occs: seq<Occurrence>, name: string)
    ensures RepeatsOf(Repeats(occs), name) == if CountOf(occs, name) == 0 then 0 else CountOf(occs, name) - 1
  {
    if occs != [] {
      var init, o := occs[..|occs| - 1], occs[|occs| - 1];
      var m := FirstLines(init);
      var extra := if o.name in m then [Repeat(o.name, m[o.name], o.line)] else [];
      RepeatsPerName(init, name);
      assert Repeats(occs) == Repeats(init) + extra;
      assert CountOf(occs, name) == CountOf(init, name) + (if o.name == name then 1 else 0);
      RepeatsOfAppend(Repeats(init), extra, name);
      CountOfPositive(init, o.name);
      assert RepeatsOf(extra, name) == (if o.name in m && o.name == name then 1 else 0) by {
        if extra != [] {
          assert extra[..0] == [];
        }
      }
    }
  }

  /** No reports exactly when no name occurs twice. */
  lemma {:induction false} RepeatsEmptyIffDistinct(occs: seq<Occurrence>)
    ensures Repeats(occs) == [] <==> Distinct(occs)
  {
    if occs != [] {
      var init, o := occs[..|occs| - 1], occs[|occs| - 1];
      assert occs == init + [o];
      RepeatsEmptyIffDistinct(init);
      if Distinct(occs) {
        assert Distinct(init) by {
          forall i, j | 0 <= i < j < |init| ensures init[i].name != init[j].name {
            assert init[i] == occs[i] && init[j] == occs[j];
          }
        }
        assert o.name !in Names(init);
      } else if Distinct(init) {
        var i, j :| 0 <= i < j < |occs| && occs[i].name == occs[j].name;
        assert j == |occs| - 1;
        assert occs[i] in init;
        assert o.name in FirstLines(init);
      }
    }
  }

  /** Every report names a name that occurred at its `first` line, for the first time, and again
      later at its `line`. */
  lemma {:induction false} RepeatsSound(occs: seq<Occurrence>, k: nat)
    requires k < |Repeats(occs)|
    ensures exists i, j :: 0 <= i < j < |occs| && IsFirst(occs, i)
                           && occs[i] == Occurrence(Repeats(occs)[k].name, Repeats(occs)[k].first)
                           && occs[j] == Occurrence(Repeats(occs)[k].name, Repeats(occs)[k].line)
  {
    var init, o := occs[..|occs| - 1], occs[|occs| - 1];
    var m := FirstLines(init);
    assert Repeats(occs) == Repeats(init) + (if o.name in m then [Repeat(o.name, m[o.name], o.line)] else []);
    var r := Repeats(occs)[k];
    if k < |Repeats(init)| {
      assert Repeats(init)[k] == r;
      RepeatsSound(init, k);
      var i, j :| 0 <= i < j < |init| && IsFirst(init, i)
                  && init[i] == Occurrence(r.name, r.first) && init[j] == Occurrence(r.name, r.line);
      FirstInLonger(occs, i);
      assert occs[i] == init[i] && occs[j] == init[j];
    } else {
      assert o.name in m && r == Repeat(o.name, m[o.name], o.line);
      var i := FirstIndex(init, o.name);
      FirstLinesAreFirst(init, i);
      FirstInLonger(occs, i);
      assert occs[i] == init[i];
      assert occs[|occs| - 1] == o;
    }
  }

  /** Every later occurrence of a name is reported, with the line of the name's first
      occurrence. */
  lemma {:induction false} RepeatsComplete(occs: seq<Occurrence>, i: nat, j: nat)
    requires i < j < |occs| && IsFirst(occs, i) && occs[j].name == occs[i].name
    ensures Repeat(occs[i].name, occs[i].line, occs[j].line) in Repeats(occs)
  {
    var init, o := occs[..|occs| - 1], occs[|occs| - 1];
    assert occs == init + [o];
    Snoc(init, o);
    assert init[i] == occs[i];
    assert IsFirst(init, i) by {
      forall k | 0 <= k < i ensures init[k].name != init[i].name {
        assert init[k] == occs[k];
      }
    }
    if j < |occs| - 1 {
      assert init[j] == occs[j];
      RepeatsComplete(init, i, j);
    } else {
      FirstLinesAreFirst(init, i);
    }
  }

  /** A first occurrence stays first when the stream grows. */
  lemma FirstInLonger(occs: seq<Occurrence>, i: nat)
    requires i < |occs| - 1 && IsFirst(occs[..|occs| - 1], i)
    ensures IsFirst(occs, i)
  {
    var init := occs[..|occs| - 1];
    forall j | 0 <= j < i ensures occs[j].name != occs[i].name {
      assert occs[j] == init[j] && occs[i] == init[i];
    }
  }

  /** The index of the first occurrence of a name that occurs. */
  function FirstIndex(occs: seq<Occurrence>, name: string): (i: nat)
    requires name in Names(occs)
    ensures i < |occs| && occs[i].name == name && IsFirst(occs, i)
  {
    if occs[0].name == name then 0
    else
      assert name in Names(occs[1..]) by {
        var x :| x in occs && x.name == name;
        assert x in occs[1..];
      }
      var i := FirstIndex(occs[1..], name);
      assert IsFirst(occs, i + 1) by {
        forall j | 0 <= j < i + 1 ensures occs[j].name != name {
          if j > 0 {
            assert occs[j] == occs[1..][j - 1];
          }
        }
      }
      i + 1
  }

  /** When lines strictly increase along the stream, a report's first line precedes its line. */
  predicate Ascending(occs: seq<Occurrence>) {
    forall i, j :: 0 <= i < j < |occs| ==> occs[i].line < occs[j].line
  }

  /** In line order, the first occurrence of a name has the smallest line among its
      occurrences. */
  lemma FirstIsEarliest(occs: seq<Occurrence>, i: nat, x: Occurrence)
    requires Ascending(occs) && i < |occs| && IsFirst(occs, i)
    ensures x in occs && x.name == occs[i].name ==> occs[i].line <= x.line
  {
  }

  lemma RepeatsOrdered(occs: seq<Occurrence>, k: nat)
    requires Ascending(occs) && k < |Repeats(occs)|
    ensures Repeats(occs)[k].first < Repeats(occs)[k].line
  {
    RepeatsSound(occs, k);
  }
}
