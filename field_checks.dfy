/** What the duplicate field report means, stated over the classified lines: every diagnostic
    points at two declarations of the same field inside one entry, under the key of the header
    that opened it, on lines at brace depth 1 counted from that header; a `@comment` block
    contributes nothing; and the report is empty exactly when no scanned entry records a field
    twice. The converse direction, that every repeated declaration is reported, is proved in
    FieldComplete; the worked cases at the end are over classified lines, and FieldCases
    carries them to texts. */
module FieldChecks {

  import opened Wrappers
  import opened Occurrences
  import opened FieldScanner

  /** Sum of the brace balances of the lines with 0-based indices a .. b-1. */
  function BraceSum(infos: seq<LineInfo>, a: nat, b: nat): int
    requires a <= b <= |infos|
    decreases b - a
  {
    if a == b then 0 else BraceSum(infos, a, b - 1) + infos[b - 1].delta
  }

  /** No header among the lines with 0-based indices lo .. hi-1. */
  ghost predicate NoHeaderIn(infos: seq<LineInfo>, lo: nat, hi: nat)
    requires hi <= |infos|
  {
    forall x :: lo <= x < hi ==> !infos[x].header
  }

  /** The entry whose header has 0-based index a is still open at the end of line m: the brace
      balance counted from its header stays positive throughout. */
  ghost predicate OpenThrough(infos: seq<LineInfo>, a: nat, m: nat)
    requires a <= m <= |infos|
  {
    forall x :: a < x <= m ==> BraceSum(infos, a, x) > 0
  }

  /** An occurrence belongs to the entry whose header is line h: the line declares that field,
      and it is either the header line itself or a later line, with no header from h on, at
      brace depth exactly 1 of an entry still open. */
  ghost predicate BelongsTo(infos: seq<LineInfo>, h: nat, o: Occurrence) {
    && 1 <= h <= o.line <= |infos|
    && infos[o.line - 1].field == Some(o.name)
    && NoHeaderIn(infos, h, o.line)
    && (o.line > h ==> OpenThrough(infos, h - 1, o.line - 1) && BraceSum(infos, h - 1, o.line - 1) == 1)
  }

  /** A scanned entry: its header line carries its key, and its fields, in increasing line
      order, all belong to it. */
  ghost predicate WellScanned(infos: seq<LineInfo>, e: ScannedEntry) {
    && 1 <= e.line <= |infos|
    && infos[e.line - 1].header && infos[e.line - 1].key == Some(e.key)
    && Ascending(e.fields)
    && forall k :: 0 <= k < |e.fields| ==> BelongsTo(infos, e.line, e.fields[k])
  }

  ghost predicate AllWellScanned(infos: seq<LineInfo>, es: seq<ScannedEntry>) {
    forall j :: 0 <= j < |es| ==> WellScanned(infos, es[j])
  }

  /** What holds of the scanner state after the given lines. */
  ghost predicate ScanInvariant(infos: seq<LineInfo>, st: ScanState) {
    && (st.mode.Outside? <==> st.depth <= 0)
    && (st.mode.Outside? ==> st.depth == 0)
    && AllWellScanned(infos, Entries(st))
    && (st.mode.InEntry? ==>
          && 1 <= st.mode.line <= |infos|
          && NoHeaderIn(infos, st.mode.line, |infos|)
          && OpenThrough(infos, st.mode.line - 1, |infos|)
          && st.depth == BraceSum(infos, st.mode.line - 1, |infos|))
  }

  /** The invariant before the depth check of a step: the state may not yet be settled. */
  ghost predicate Unsettled(infos: seq<LineInfo>, st: ScanState) {
    && (st.mode.Outside? ==> st.depth == 0)
    && AllWellScanned(infos, Entries(st))
    && (st.mode.InEntry? ==>
          && 1 <= st.mode.line <= |infos|
          && NoHeaderIn(infos, st.mode.line, |infos|)
          && OpenThrough(infos, st.mode.line - 1, |infos| - 1)
          && st.depth == BraceSum(infos, st.mode.line - 1, |infos|))
  }

  // ---------------------------------------------------------------------------------------
  // Growing the text by one line keeps what held of the shorter one

  lemma {:induction false} BraceSumGrow(infos: seq<LineInfo>, info: LineInfo, a: nat, b: nat)
    requires a <= b <= |infos|
    ensures BraceSum(infos + [info], a, b) == BraceSum(infos, a, b)
    decreases b - a
  {
    if a < b {
      BraceSumGrow(infos, info, a, b - 1);
      assert (infos + [info])[b - 1] == infos[b - 1];
    }
  }

  lemma BelongsToGrow(infos: seq<LineInfo>, info: LineInfo, h: nat, o: Occurrence)
    requires BelongsTo(infos, h, o)
    ensures BelongsTo(infos + [info], h, o)
  {
    var infos' := infos + [info];
    assert infos'[o.line - 1] == infos[o.line - 1];
    assert NoHeaderIn(infos', h, o.line) by {
      forall x | h <= x < o.line ensures !infos'[x].header {
        assert infos'[x] == infos[x];
      }
    }
    if o.line > h {
      BraceSumGrow(infos, info, h - 1, o.line - 1);
      var a := h - 1;
      forall x | a < x <= o.line - 1 ensures BraceSum(infos', a, x) > 0 {
        BraceSumGrow(infos, info, a, x);
      }
    }
  }

  lemma WellScannedGrow(infos: seq<LineInfo>, info: LineInfo, e: ScannedEntry)
    requires WellScanned(infos, e)
    ensures WellScanned(infos + [info], e)
  {
    assert (infos + [info])[e.line - 1] == infos[e.line - 1];
    forall k | 0 <= k < |e.fields| ensures BelongsTo(infos + [info], e.line, e.fields[k]) {
      BelongsToGrow(infos, info, e.line, e.fields[k]);
    }
  }

  lemma AllWellScannedGrow(infos: seq<LineInfo>, info: LineInfo, es: seq<ScannedEntry>)
    requires AllWellScanned(infos, es)
    ensures AllWellScanned(infos + [info], es)
  {
    forall j | 0 <= j < |es| ensures WellScanned(infos + [info], es[j]) {
      WellScannedGrow(infos, info, es[j]);
    }
  }

  lemma AllWellScannedSplit(infos: seq<LineInfo>, es: seq<ScannedEntry>, e: ScannedEntry)
    requires AllWellScanned(infos, es + [e])
    ensures AllWellScanned(infos, es) && WellScanned(infos, e)
  {
    assert (es + [e])[|es|] == e;
    forall j | 0 <= j < |es| ensures WellScanned(infos, es[j]) {
      assert (es + [e])[j] == es[j];
    }
  }

  lemma AllWellScannedSnoc(infos: seq<LineInfo>, es: seq<ScannedEntry>, e: ScannedEntry)
    requires AllWellScanned(infos, es) && WellScanned(infos, e)
    ensures AllWellScanned(infos, es + [e])
  {
  }

  // ---------------------------------------------------------------------------------------
  // The scanner keeps the invariant

  lemma SettleKeeps(infos: seq<LineInfo>, st: ScanState)
    requires Unsettled(infos, st)
    ensures ScanInvariant(infos, Settle(st))
  {
    if st.depth <= 0 {
      assert Entries(Settle(st)) == Entries(st);
    }
  }

  lemma {:induction false} HeaderKeeps(infos: seq<LineInfo>, info: LineInfo, st: ScanState)
    requires ScanInvariant(infos, st) && info.header
    ensures ScanInvariant(infos + [info], Step(st, info, |infos| + 1))
  {
    var infos', n := infos + [info], |infos| + 1;
    AllWellScannedGrow(infos, info, Entries(st));
    var mode := match info.key
                case None => Skipping
                case Some(k) => InEntry(k, n, FieldEvent(info.field, n));
    var open := ScanState(info.delta, mode, Entries(st));
    if info.key.Some? {
      var e := ScannedEntry(info.key.value, n, FieldEvent(info.field, n));
      assert infos'[n - 1] == info;
      assert WellScanned(infos', e) by {
        if info.field.Some? {
          assert BelongsTo(infos', n, e.fields[0]);
        }
      }
      AllWellScannedSnoc(infos', Entries(st), e);
      assert Entries(open) == Entries(st) + [e];
      assert BraceSum(infos', n - 1, n) == info.delta;
    } else {
      assert Entries(open) == Entries(st);
    }
    SettleKeeps(infos', open);
  }

  lemma {:induction false} EntryLineKeeps(infos: seq<LineInfo>, info: LineInfo, st: ScanState)
    requires ScanInvariant(infos, st) && !info.header && st.mode.InEntry?
    ensures ScanInvariant(infos + [info], Step(st, info, |infos| + 1))
  {
    var infos', n := infos + [info], |infos| + 1;
    var k, h, fs := st.mode.key, st.mode.line, st.mode.fields;
    AllWellScannedGrow(infos, info, Entries(st));
    assert Entries(st) == st.closed + [ScannedEntry(k, h, fs)];
    AllWellScannedSplit(infos', st.closed, ScannedEntry(k, h, fs));
    assert infos'[n - 1] == info;
    assert NoHeaderIn(infos', h, n) by {
      forall x | h <= x < n ensures !infos'[x].header {
        if x < n - 1 {
          assert infos'[x] == infos[x];
        }
      }
    }
    BraceSumGrow(infos, info, h - 1, |infos|);
    assert OpenThrough(infos', h - 1, n - 1) by {
      var a := h - 1;
      forall x | a < x <= n - 1 ensures BraceSum(infos', a, x) > 0 {
        BraceSumGrow(infos, info, a, x);
      }
    }
    var fs' := if st.depth == 1 then fs + FieldEvent(info.field, n) else fs;
    if st.depth == 1 && info.field.Some? {
      var o := Occurrence(info.field.value, n);
      assert fs' == fs + [o];
      assert BelongsTo(infos', h, o);
      AllWellScannedSplit(infos, st.closed, ScannedEntry(k, h, fs));
      FieldKeeps(infos, info, ScannedEntry(k, h, fs), o);
    } else {
      assert fs' == fs;
    }
    var open := ScanState(st.depth + info.delta, InEntry(k, h, fs'), st.closed);
    AllWellScannedSnoc(infos', st.closed, ScannedEntry(k, h, fs'));
    assert Unsettled(infos', open);
    SettleKeeps(infos', open);
  }

  /** A field recorded on the new last line keeps its entry well scanned. */
  lemma FieldKeeps(infos: seq<LineInfo>, info: LineInfo, e: ScannedEntry, o: Occurrence)
    requires WellScanned(infos, e) && BelongsTo(infos + [info], e.line, o) && o.line == |infos| + 1
    ensures WellScanned(infos + [info], e.(fields := e.fields + [o]))
  {
    WellScannedGrow(infos, info, e);
    var fs := e.fields;
    forall j | 0 <= j < |fs| ensures fs[j].line < o.line {
      assert BelongsTo(infos, e.line, fs[j]);
    }
    assert forall j :: 0 <= j < |fs| ==> (fs + [o])[j] == fs[j];
  }

  /** One more line keeps the invariant. */
  lemma StepKeeps(infos: seq<LineInfo>, info: LineInfo, st: ScanState)
    requires ScanInvariant(infos, st)
    ensures ScanInvariant(infos + [info], Step(st, info, |infos| + 1))
  {
    if info.header {
      HeaderKeeps(infos, info, st);
    } else if st.mode.InEntry? {
      EntryLineKeeps(infos, info, st);
    } else {
      AllWellScannedGrow(infos, info, Entries(st));
      if st.mode.Skipping? {
        SettleKeeps(infos + [info], ScanState(st.depth + info.delta, Skipping, st.closed));
      }
    }
  }

  /** The scanner's state after any text satisfies the invariant. */
  lemma {:induction false} ScanKeeps(infos: seq<LineInfo>)
    ensures ScanInvariant(infos, Scan(infos))
  {
    if infos != [] {
      var init := infos[..|infos| - 1];
      ScanKeeps(init);
      StepKeeps(init, infos[|infos| - 1], Scan(init));
      assert init + [infos[|infos| - 1]] == infos;
    }
  }

  // ---------------------------------------------------------------------------------------
  // What the report says

  /** Line h (1-based) is a header opening an entry under `key`. */
  ghost predicate EntryHeader(infos: seq<LineInfo>, h: nat, key: string) {
    1 <= h <= |infos| && infos[h - 1].header && infos[h - 1].key == Some(key)
  }

  lemma {:induction false} ReportMember(es: seq<ScannedEntry>, d: DuplicateField)
    requires d in Report(es)
    ensures exists j :: 0 <= j < |es| && d in EntryReport(es[j])
  {
    var init := es[..|es| - 1];
    if d in Report(init) {
      ReportMember(init, d);
      var j :| 0 <= j < |init| && d in EntryReport(init[j]);
      assert es[j] == init[j];
    } else {
      assert d in EntryReport(es[|es| - 1]);
    }
  }

  /** A diagnostic of one scanned entry names its key and two declarations of the field in it,
      the first being the earlier. */
  lemma EntryReportSound(infos: seq<LineInfo>, e: ScannedEntry, d: DuplicateField)
    requires WellScanned(infos, e) && d in EntryReport(e)
    ensures d.key == e.key && d.firstLine < d.line
    ensures BelongsTo(infos, e.line, Occurrence(d.field, d.firstLine))
    ensures BelongsTo(infos, e.line, Occurrence(d.field, d.line))
  {
    var rs := Repeats(e.fields);
    var k :| 0 <= k < |rs| && Tag(e.key, rs)[k] == d;
    RepeatsSound(e.fields, k);
    var i, j :| 0 <= i < j < |e.fields| && IsFirst(e.fields, i)
                && e.fields[i] == Occurrence(rs[k].name, rs[k].first)
                && e.fields[j] == Occurrence(rs[k].name, rs[k].line);
    assert BelongsTo(infos, e.line, e.fields[i]) && BelongsTo(infos, e.line, e.fields[j]);
  }

  /** Every duplicate field diagnostic points at two declarations of the named field, the first
      one earlier, both belonging to one entry whose header carries the named key. */
  lemma FieldReportSound(infos: seq<LineInfo>, d: DuplicateField)
    requires d in FieldReport(infos)
    ensures 1 <= d.firstLine < d.line <= |infos|
    ensures exists h :: EntryHeader(infos, h, d.key)
                        && BelongsTo(infos, h, Occurrence(d.field, d.firstLine))
                        && BelongsTo(infos, h, Occurrence(d.field, d.line))
  {
    var es := Entries(Scan(infos));
    ScanKeeps(infos);
    ReportMember(es, d);
    var j :| 0 <= j < |es| && d in EntryReport(es[j]);
    EntryReportSound(infos, es[j], d);
    assert EntryHeader(infos, es[j].line, d.key);
  }

  /** A declaration after a `@comment` header (or any header without a key), with no header
      between them, belongs to no entry. */
  lemma CommentLineOwnerless(infos: seq<LineInfo>, c: nat, h: nat, key: string, o: Occurrence)
    requires 1 <= c <= o.line <= |infos| && infos[c - 1].header && infos[c - 1].key.None?
    requires NoHeaderIn(infos, c, o.line)
    requires EntryHeader(infos, h, key)
    ensures !BelongsTo(infos, h, o)
  {
  }

  /** Lines after a `@comment` header (or any header without a key), up to the next header,
      never appear in a diagnostic. */
  lemma CommentBlockSilent(infos: seq<LineInfo>, c: nat, line: nat, d: DuplicateField)
    requires 1 <= c <= line <= |infos| && infos[c - 1].header && infos[c - 1].key.None?
    requires NoHeaderIn(infos, c, line)
    requires d in FieldReport(infos)
    ensures d.firstLine != line && d.line != line
  {
    FieldReportSound(infos, d);
    var h: nat :| EntryHeader(infos, h, d.key)
                  && BelongsTo(infos, h, Occurrence(d.field, d.firstLine))
                  && BelongsTo(infos, h, Occurrence(d.field, d.line));
    CommentLineOwnerless(infos, c, h, d.key, Occurrence(d.field, line));
  }

  /** No scanned entry records a field name twice. */
  predicate FieldsDistinct(es: seq<ScannedEntry>) {
    forall j :: 0 <= j < |es| ==> Distinct(es[j].fields)
  }

  lemma {:induction false} ReportEmptyIff(es: seq<ScannedEntry>)
    ensures Report(es) == [] <==> FieldsDistinct(es)
  {
    if es != [] {
      var init, e := es[..|es| - 1], es[|es| - 1];
      ReportEmptyIff(init);
      RepeatsEmptyIffDistinct(e.fields);
      if forall j :: 0 <= j < |es| ==> Distinct(es[j].fields) {
        assert forall j :: 0 <= j < |init| ==> init[j] == es[j];
      } else {
        var j :| 0 <= j < |es| && !Distinct(es[j].fields);
        if j < |init| {
          assert init[j] == es[j];
        }
      }
    }
  }

  /** No diagnostic exactly when no scanned entry records a field name twice. */
  lemma FieldReportEmptyIff(infos: seq<LineInfo>)
    ensures FieldReport(infos) == [] <==> FieldsDistinct(Entries(Scan(infos)))
  {
    ReportEmptyIff(Entries(Scan(infos)));
  }

  // ---------------------------------------------------------------------------------------
  // Worked cases

  /** A one-line-per-field entry: the header `@type{key,`, one `name = {...},` line per field,
      and the closing `}`. */
  function FieldLines(names: seq<string>): (infos: seq<LineInfo>)
    ensures |infos| == |names|
  {
    if names == [] then []
    else FieldLines(names[..|names| - 1]) + [LineInfo(false, None, Some(names[|names| - 1]), 0)]
  }

  function FlatEntry(key: string, names: seq<string>): seq<LineInfo> {
    [LineInfo(true, Some(key), None, 1)] + FieldLines(names) + [LineInfo(false, None, None, -1)]
  }

  /** The field names, numbered from line `first` on. */
  function Numbered(names: seq<string>, first: nat): (occs: seq<Occurrence>)
    ensures |occs| == |names|
  {
    if names == [] then []
    else Numbered(names[..|names| - 1], first) + [Occurrence(names[|names| - 1], first + |names| - 1)]
  }

  lemma {:induction false} ScanFlatOpen(key: string, names: seq<string>)
    ensures Scan([LineInfo(true, Some(key), None, 1)] + FieldLines(names))
            == ScanState(1, InEntry(key, 1, Numbered(names, 2)), [])
  {
    var head := [LineInfo(true, Some(key), None, 1)];
    if names == [] {
      assert head + FieldLines(names) == head;
      assert head[..0] == [];
    } else {
      var init := names[..|names| - 1];
      var line := LineInfo(false, None, Some(names[|names| - 1]), 0);
      ScanFlatOpen(key, init);
      var p := head + FieldLines(init);
      assert head + FieldLines(names) == p + [line];
      assert (p + [line])[..|p|] == p;
    }
  }

  /** A one-line-per-field entry records every field, at its own line. */
  lemma ScanFlatEntry(key: string, names: seq<string>)
    ensures Scan(FlatEntry(key, names)) == ScanState(0, Outside, [ScannedEntry(key, 1, Numbered(names, 2))])
  {
    var p := [LineInfo(true, Some(key), None, 1)] + FieldLines(names);
    var f := FlatEntry(key, names);
    ScanFlatOpen(key, names);
    assert f[..|f| - 1] == p;
    assert Numbered(names, 2) + FieldEvent(None, |f|) == Numbered(names, 2);
  }

  /** A one-line-per-field entry gets its diagnostics from its repeated names alone. */
  lemma FlatEntryReport(key: string, names: seq<string>)
    ensures FieldReport(FlatEntry(key, names)) == Tag(key, Repeats(Numbered(names, 2)))
  {
    ScanFlatEntry(key, names);
    var e := ScannedEntry(key, 1, Numbered(names, 2));
    assert Entries(Scan(FlatEntry(key, names))) == [e];
    assert [e][..0] == [];
    assert Report([e]) == [] + EntryReport(e);
  }

  /** Line i + 2 of a one-field-per-line entry declares field i. */
  lemma {:induction false} FieldLinesAt(names: seq<string>, i: nat)
    requires i < |names|
    ensures FieldLines(names)[i] == LineInfo(false, None, Some(names[i]), 0)
  {
    if i < |names| - 1 {
      FieldLinesAt(names[..|names| - 1], i);
    }
  }

  /** Field i of a one-field-per-line entry is on line first + i. */
  lemma {:induction false} NumberedAt(names: seq<string>, first: nat, i: nat)
    requires i < |names|
    ensures Numbered(names, first)[i] == Occurrence(names[i], first + i)
  {
    if i < |names| - 1 {
      NumberedAt(names[..|names| - 1], first, i);
    }
  }

  /** Different names, numbered, give distinct occurrences. */
  lemma NumberedDistinct(names: seq<string>, first: nat)
    requires forall i, j :: 0 <= i < j < |names| ==> names[i] != names[j]
    ensures Distinct(Numbered(names, first))
  {
    forall i, j | 0 <= i < j < |names|
      ensures Numbered(names, first)[i].name != Numbered(names, first)[j].name
    {
      NumberedAt(names, first, i);
      NumberedAt(names, first, j);
    }
  }

  /** One repeat, tagged with the key. */
  lemma TagOne(key: string, r: Repeat)
    ensures Tag(key, [r]) == [DuplicateField(key, r.name, r.first, r.line)]
  {
  }

  /** An entry declaring different fields, one per line, and then one of them again on the
      last field line gets exactly one diagnostic: its key, that field, the line of its first
      declaration and the last field line. */
  lemma RepeatLastReported(key: string, names: seq<string>, i: nat)
    requires forall p, q :: 0 <= p < q < |names| ==> names[p] != names[q]
    requires i < |names|
    ensures FieldReport(FlatEntry(key, names + [names[i]]))
            == [DuplicateField(key, names[i], i + 2, |names| + 2)]
  {
    var all := names + [names[i]];
    var first, last := i + 2, |names| + 2;
    FlatEntryReport(key, all);
    var occs := Numbered(names, 2);
    var o := Occurrence(names[i], last);
    assert all[..|all| - 1] == names;
    assert 2 + |all| - 1 == last;
    assert Numbered(all, 2) == occs + [o];
    NumberedDistinct(names, 2);
    NumberedAt(names, 2, i);
    assert occs[i].line == first;
    RepeatAfterDistinct(occs, o, i);
    TagOne(key, Repeat(names[i], first, last));
  }

  /** An entry declaring three different fields and then one field twice, on lines 5 and 6,
      gets exactly one diagnostic, naming its key, that field and both lines. */
  lemma RepeatedFieldReported(key: string, a: string, b: string, c: string, f: string)
    requires a != b && a != c && a != f && b != c && b != f && c != f
    ensures FieldReport(FlatEntry(key, [a, b, c, f, f])) == [DuplicateField(key, f, 5, 6)]
  {
    var names := [a, b, c, f];
    assert names + [names[3]] == [a, b, c, f, f];
    RepeatLastReported(key, names, 3);
  }
}
