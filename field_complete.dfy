/** The duplicate field report is complete. For every header with a key the scanner records one
    entry, in line order, holding exactly the declarations that belong to it in the sense of
    `BelongsTo`, so its report is the one computed from that definition alone: every field
    declared twice in an entry is reported with the line of its first declaration, an entry
    declaring a field n >= 1 times gets n - 1 diagnostics for it, and the report is empty exactly
    when no entry declares a field twice. */
module FieldComplete {

  import opened Wrappers
  import opened Occurrences
  import opened FieldScanner
  import opened FieldChecks

  /** Line h (1-based) is a header with a key. */
  ghost predicate Keyed(infos: seq<LineInfo>, h: nat) {
    1 <= h <= |infos| && infos[h - 1].header && infos[h - 1].key.Some?
  }

  /** The field declared on line n, as an occurrence, when it belongs to the entry whose header
      is line h. */
  ghost function OwnedAt(infos: seq<LineInfo>, h: nat, n: nat): seq<Occurrence>
    requires 1 <= n <= |infos|
  {
    match infos[n - 1].field
    case None => []
    case Some(f) => if BelongsTo(infos, h, Occurrence(f, n)) then [Occurrence(f, n)] else []
  }

  /** The declarations among lines 1 .. m that belong to the entry whose header is line h, in
      line order. */
  ghost function Owned(infos: seq<LineInfo>, h: nat, m: nat): seq<Occurrence>
    requires m <= |infos|
  {
    if m == 0 then [] else Owned(infos, h, m - 1) + OwnedAt(infos, h, m)
  }

  /** The entries the headers among lines 1 .. m should yield: one per header with a key, in
      line order, each holding the declarations among lines 1 .. M that belong to it. */
  ghost function Expected(infos: seq<LineInfo>, m: nat, M: nat): seq<ScannedEntry>
    requires m <= |infos| && M <= |infos|
  {
    if m == 0 then []
    else Expected(infos, m - 1, M)
         + if Keyed(infos, m) then [ScannedEntry(infos[m - 1].key.value, m, Owned(infos, m, M))] else []
  }

  /** The entry whose header is line h is still open after the last line. */
  ghost predicate Open(infos: seq<LineInfo>, h: nat) {
    1 <= h <= |infos| && NoHeaderIn(infos, h, |infos|) && OpenThrough(infos, h - 1, |infos|)
  }

  /** The scanner state after the given lines records the expected entries, and the only entry
      still open is the one the scanner is inside. */
  ghost predicate Exact(infos: seq<LineInfo>, st: ScanState) {
    && ScanInvariant(infos, st)
    && Entries(st) == Expected(infos, |infos|, |infos|)
    && forall h :: Open(infos, h) && Keyed(infos, h) ==> InsideAt(st, h)
  }

  /** The scanner is inside the entry whose header is line h. */
  predicate InsideAt(st: ScanState, h: nat) {
    st.mode.InEntry? && st.mode.line == h
  }

  // ---------------------------------------------------------------------------------------
  // Growing the text by one line

  lemma {:induction false} BelongsToShrink(infos: seq<LineInfo>, info: LineInfo, h: nat, o: Occurrence)
    requires o.line <= |infos|
    ensures BelongsTo(infos + [info], h, o) ==> BelongsTo(infos, h, o)
  {
    var infos' := infos + [info];
    if BelongsTo(infos', h, o) {
      assert infos'[o.line - 1] == infos[o.line - 1];
      assert NoHeaderIn(infos, h, o.line) by {
        forall x | h <= x < o.line ensures !infos[x].header {
          assert infos'[x] == infos[x];
        }
      }
      if o.line > h {
        var a := h - 1;
        BraceSumGrow(infos, info, a, o.line - 1);
        forall x | a < x <= o.line - 1 ensures BraceSum(infos, a, x) > 0 {
          BraceSumGrow(infos, info, a, x);
        }
      }
    }
  }

  lemma {:induction false} OwnedAtGrow(infos: seq<LineInfo>, info: LineInfo, h: nat, n: nat)
    requires 1 <= n <= |infos|
    ensures OwnedAt(infos + [info], h, n) == OwnedAt(infos, h, n)
  {
    assert (infos + [info])[n - 1] == infos[n - 1];
    if infos[n - 1].field.Some? {
      var o := Occurrence(infos[n - 1].field.value, n);
      if BelongsTo(infos, h, o) {
        BelongsToGrow(infos, info, h, o);
      }
      BelongsToShrink(infos, info, h, o);
    }
  }

  lemma {:induction false} OwnedGrow(infos: seq<LineInfo>, info: LineInfo, h: nat, m: nat)
    requires m <= |infos|
    ensures Owned(infos + [info], h, m) == Owned(infos, h, m)
  {
    if m > 0 {
      OwnedGrow(infos, info, h, m - 1);
      OwnedAtGrow(infos, info, h, m);
    }
  }

  lemma {:induction false} ExpectedGrow(infos: seq<LineInfo>, info: LineInfo, m: nat)
    requires m <= |infos|
    ensures Expected(infos + [info], m, |infos|) == Expected(infos, m, |infos|)
  {
    if m > 0 {
      ExpectedGrow(infos, info, m - 1);
      assert (infos + [info])[m - 1] == infos[m - 1];
      OwnedGrow(infos, info, m, |infos|);
    }
  }

  /** A line that no entry with a header among lines 1 .. m takes changes none of their entries. */
  lemma {:induction false} ExpectedUnchanged(infos: seq<LineInfo>, m: nat, n: nat)
    requires m <= |infos| && 1 <= n <= |infos|
    requires forall h :: 1 <= h <= m && Keyed(infos, h) ==> OwnedAt(infos, h, n) == []
    ensures Expected(infos, m, n) == Expected(infos, m, n - 1)
  {
    if m > 0 {
      ExpectedUnchanged(infos, m - 1, n);
      if Keyed(infos, m) {
        assert Owned(infos, m, n) == Owned(infos, m, n - 1) + OwnedAt(infos, m, n);
        assert OwnedAt(infos, m, n) == [];
        assert Owned(infos, m, n) == Owned(infos, m, n - 1);
      }
    }
  }

  /** Lines without a header add no entry. */
  lemma {:induction false} ExpectedNoHeaders(infos: seq<LineInfo>, a: nat, m: nat, M: nat)
    requires a <= m <= |infos| && M <= |infos| && NoHeaderIn(infos, a, m)
    ensures Expected(infos, m, M) == Expected(infos, a, M)
    decreases m
  {
    if m > a {
      ExpectedNoHeaders(infos, a, m - 1, M);
    }
  }

  /** Nothing before its header belongs to an entry. */
  lemma {:induction false} OwnedBefore(infos: seq<LineInfo>, h: nat, m: nat)
    requires m < h && m <= |infos|
    ensures Owned(infos, h, m) == []
  {
    if m > 0 {
      OwnedBefore(infos, h, m - 1);
    }
  }

  /** A field declared on the header line belongs to that header's entry. */
  lemma {:induction false} HeaderLineOwned(infos: seq<LineInfo>, n: nat)
    requires 1 <= n <= |infos|
    ensures OwnedAt(infos, n, n) == FieldEvent(infos[n - 1].field, n)
  {
  }

  /** A later header ends every entry before it. */
  lemma {:induction false} OpenIsLast(infos: seq<LineInfo>, h: nat, g: nat)
    requires 1 <= g <= |infos| && infos[g - 1].header
    ensures Open(infos, h) ==> g <= h
  {
  }

  lemma {:induction false} OpenShrink(infos: seq<LineInfo>, info: LineInfo, h: nat)
    requires h <= |infos|
    ensures Open(infos + [info], h) ==> Open(infos, h)
  {
    var infos' := infos + [info];
    if Open(infos', h) {
      assert NoHeaderIn(infos, h, |infos|) by {
        forall x | h <= x < |infos| ensures !infos[x].header {
          assert infos'[x] == infos[x];
        }
      }
      var a := h - 1;
      forall x | a < x <= |infos| ensures BraceSum(infos, a, x) > 0 {
        BraceSumGrow(infos, info, a, x);
      }
    }
  }

  /** The new last line belongs to an entry with an earlier header only if that entry was open
      and the line is not a header. */
  lemma {:induction false} NewLineOwner(infos: seq<LineInfo>, info: LineInfo, h: nat)
    requires 1 <= h <= |infos|
    ensures OwnedAt(infos + [info], h, |infos| + 1) != [] ==> Open(infos, h) && !info.header
  {
    var infos', n := infos + [info], |infos| + 1;
    if OwnedAt(infos', h, n) != [] {
      var o := Occurrence(info.field.value, n);
      assert infos'[n - 1] == info;
      assert BelongsTo(infos', h, o);
      assert NoHeaderIn(infos, h, |infos|) by {
        forall x | h <= x < |infos| ensures !infos[x].header {
          assert infos'[x] == infos[x];
        }
      }
      var a := h - 1;
      forall x | a < x <= |infos| ensures BraceSum(infos, a, x) > 0 {
        BraceSumGrow(infos, info, a, x);
      }
    }
  }

  /** The open entry takes the new line's field exactly when the line is at depth 1. */
  lemma {:induction false} OpenEntryGains(infos: seq<LineInfo>, info: LineInfo, h: nat)
    requires Open(infos, h) && !info.header
    ensures OwnedAt(infos + [info], h, |infos| + 1)
            == if BraceSum(infos, h - 1, |infos|) == 1 then FieldEvent(info.field, |infos| + 1) else []
  {
    var infos', n := infos + [info], |infos| + 1;
    assert infos'[n - 1] == info;
    BraceSumGrow(infos, info, h - 1, |infos|);
    assert NoHeaderIn(infos', h, n) by {
      forall x | h <= x < n ensures !infos'[x].header {
        if x < |infos| {
          assert infos'[x] == infos[x];
        }
      }
    }
    var a := h - 1;
    forall x | a < x <= |infos| ensures BraceSum(infos', a, x) > 0 {
      BraceSumGrow(infos, info, a, x);
    }
  }

  /** The last line, as a header, opens an entry that is open exactly when its balance is
      positive. */
  lemma {:induction false} OpenAtHeader(infos: seq<LineInfo>, info: LineInfo)
    ensures Open(infos + [info], |infos| + 1) <==> info.delta > 0
  {
    var infos', n := infos + [info], |infos| + 1;
    assert BraceSum(infos', n - 1, n) == infos'[n - 1].delta;
  }

  // ---------------------------------------------------------------------------------------
  // The scanner records exactly the expected entries

  lemma {:induction false} HeaderExact(infos: seq<LineInfo>, info: LineInfo, st: ScanState)
    requires Exact(infos, st) && info.header
    ensures Exact(infos + [info], Step(st, info, |infos| + 1))
  {
    StepKeeps(infos, info, st);
    HeaderEntries(infos, info, st);
    HeaderOpen(infos, info, st);
  }

  /** A header takes no line from the entries before it and adds its own entry, holding the
      field declared on the header line. */
  lemma {:induction false} HeaderEntries(infos: seq<LineInfo>, info: LineInfo, st: ScanState)
    requires Entries(st) == Expected(infos, |infos|, |infos|) && info.header
    ensures Entries(Step(st, info, |infos| + 1)) == Expected(infos + [info], |infos| + 1, |infos| + 1)
  {
    var infos', N, n := infos + [info], |infos|, |infos| + 1;
    assert infos'[n - 1] == info;
    forall h | 1 <= h <= N ensures OwnedAt(infos', h, n) == [] {
      NewLineOwner(infos, info, h);
    }
    ExpectedUnchanged(infos', N, n);
    ExpectedGrow(infos, info, N);
    assert Expected(infos', N, n) == Entries(st);
    var next := Step(st, info, n);
    if info.key.Some? {
      OwnedBefore(infos', n, N);
      HeaderLineOwned(infos', n);
      assert Owned(infos', n, n) == FieldEvent(info.field, n) by {
        assert Owned(infos', n, n) == [] + FieldEvent(info.field, n);
      }
      assert Keyed(infos', n);
      var e := ScannedEntry(info.key.value, n, FieldEvent(info.field, n));
      assert Expected(infos', n, n) == Expected(infos', N, n) + [e];
      assert Entries(next) == Entries(st) + [e];
    } else {
      assert !Keyed(infos', n);
      assert Expected(infos', n, n) == Expected(infos', N, n) + [];
      assert Entries(next) == Entries(st);
    }
  }

  /** After a header, only the entry it opens can be open. */
  lemma {:induction false} HeaderOpen(infos: seq<LineInfo>, info: LineInfo, st: ScanState)
    requires info.header
    ensures forall h :: Open(infos + [info], h) && Keyed(infos + [info], h)
                        ==> InsideAt(Step(st, info, |infos| + 1), h)
  {
    var infos', n := infos + [info], |infos| + 1;
    assert infos'[n - 1] == info;
    OpenAtHeader(infos, info);
    forall h | 1 <= h <= n ensures Open(infos', h) && Keyed(infos', h) ==> InsideAt(Step(st, info, n), h) {
      OpenIsLast(infos', h, n);
    }
  }

  lemma {:induction false} EntryLineExact(infos: seq<LineInfo>, info: LineInfo, st: ScanState)
    requires Exact(infos, st) && !info.header && st.mode.InEntry?
    ensures Exact(infos + [info], Step(st, info, |infos| + 1))
  {
    StepKeeps(infos, info, st);
    OpenHeader(infos, st);
    EntryLineEntries(infos, info, st);
    EntryLineOpen(infos, info, st);
  }

  /** The header of the open entry is an open, keyed header carrying the entry's key. */
  lemma {:induction false} OpenHeader(infos: seq<LineInfo>, st: ScanState)
    requires ScanInvariant(infos, st) && st.mode.InEntry?
    ensures Open(infos, st.mode.line) && Keyed(infos, st.mode.line)
    ensures infos[st.mode.line - 1].key == Some(st.mode.key)
  {
    var k, h0, fs := st.mode.key, st.mode.line, st.mode.fields;
    assert Entries(st) == st.closed + [ScannedEntry(k, h0, fs)];
    assert WellScanned(infos, Entries(st)[|st.closed|]);
  }

  /** A line inside the open entry goes to that entry alone, and only at depth 1. */
  lemma {:induction false} EntryLineEntries(infos: seq<LineInfo>, info: LineInfo, st: ScanState)
    requires !info.header && st.mode.InEntry?
    requires Entries(st) == Expected(infos, |infos|, |infos|)
    requires forall h :: Open(infos, h) && Keyed(infos, h) ==> InsideAt(st, h)
    requires Open(infos, st.mode.line) && Keyed(infos, st.mode.line)
    requires infos[st.mode.line - 1].key == Some(st.mode.key)
    requires st.depth == BraceSum(infos, st.mode.line - 1, |infos|)
    ensures Entries(Step(st, info, |infos| + 1)) == Expected(infos + [info], |infos| + 1, |infos| + 1)
  {
    var infos', N, n := infos + [info], |infos|, |infos| + 1;
    var k, h0, fs := st.mode.key, st.mode.line, st.mode.fields;
    assert infos'[n - 1] == info;
    forall h | 1 <= h <= N && h != h0 && Keyed(infos', h) ensures OwnedAt(infos', h, n) == [] {
      NewLineOwner(infos, info, h);
      assert infos'[h - 1] == infos[h - 1];
    }
    var fs' := if st.depth == 1 then fs + FieldEvent(info.field, n) else fs;
    OpenParts(infos, st.closed, k, h0, fs);
    OpenEntryGains(infos, info, h0);
    OwnedGrow(infos, info, h0, N);
    assert Owned(infos', h0, n) == Owned(infos', h0, N) + OwnedAt(infos', h0, n);
    assert Owned(infos', h0, n) == fs';
    assert NoHeaderIn(infos', h0, N) by {
      forall x | h0 <= x < N ensures !infos'[x].header {
        assert infos'[x] == infos[x];
      }
    }
    assert Keyed(infos', h0);
    ExpectedSplit(infos', h0, N, n);
    ExpectedUnchanged(infos', h0 - 1, n);
    ExpectedGrow(infos, info, h0 - 1);
    assert !Keyed(infos', n);
    assert Expected(infos', n, n) == Expected(infos', N, n) + [];
    assert Entries(Step(st, info, n)) == st.closed + [ScannedEntry(k, h0, fs')];
  }

  /** After a line inside the open entry, that entry is the only one that can be open. */
  lemma {:induction false} EntryLineOpen(infos: seq<LineInfo>, info: LineInfo, st: ScanState)
    requires !info.header && st.mode.InEntry?
    requires forall h :: Open(infos, h) && Keyed(infos, h) ==> InsideAt(st, h)
    requires 1 <= st.mode.line <= |infos|
    requires st.depth == BraceSum(infos, st.mode.line - 1, |infos|)
    ensures forall h :: Open(infos + [info], h) && Keyed(infos + [info], h)
                        ==> InsideAt(Step(st, info, |infos| + 1), h)
  {
    var infos', N, n := infos + [info], |infos|, |infos| + 1;
    var h0 := st.mode.line;
    assert infos'[n - 1] == info;
    BraceSumGrow(infos, info, h0 - 1, N);
    assert BraceSum(infos', h0 - 1, n) == st.depth + info.delta;
    forall h | 1 <= h <= N ensures Open(infos', h) && Keyed(infos', h) ==> InsideAt(Step(st, info, n), h) {
      OpenShrink(infos, info, h);
      assert infos'[h - 1] == infos[h - 1];
    }
  }

  /** The open entry is the last expected one, after the closed entries. */
  lemma {:induction false} OpenParts(infos: seq<LineInfo>, closed: seq<ScannedEntry>, k: string, h0: nat, fs: seq<Occurrence>)
    requires closed + [ScannedEntry(k, h0, fs)] == Expected(infos, |infos|, |infos|)
    requires Keyed(infos, h0) && infos[h0 - 1].key == Some(k) && NoHeaderIn(infos, h0, |infos|)
    ensures closed == Expected(infos, h0 - 1, |infos|)
    ensures fs == Owned(infos, h0, |infos|)
  {
    ExpectedSplit(infos, h0, |infos|, |infos|);
    var e' := ScannedEntry(k, h0, Owned(infos, h0, |infos|));
    LastOfSnoc(closed, ScannedEntry(k, h0, fs), Expected(infos, h0 - 1, |infos|), e');
  }

  lemma {:induction false} LastOfSnoc<T>(a: seq<T>, x: T, b: seq<T>, y: T)
    requires a + [x] == b + [y]
    ensures a == b && x == y
  {
    assert |a| == |b|;
    assert (a + [x])[|a|] == x && (b + [y])[|b|] == y;
    assert a == (a + [x])[..|a|] && b == (b + [y])[..|b|];
  }

  /** Without a header after it, the entry of header h0 is the last expected one. */
  lemma {:induction false} ExpectedSplit(infos: seq<LineInfo>, h0: nat, m: nat, M: nat)
    requires 1 <= h0 <= m <= |infos| && M <= |infos| && Keyed(infos, h0) && NoHeaderIn(infos, h0, m)
    ensures Expected(infos, m, M)
            == Expected(infos, h0 - 1, M) + [ScannedEntry(infos[h0 - 1].key.value, h0, Owned(infos, h0, M))]
  {
    ExpectedNoHeaders(infos, h0, m, M);
  }

  lemma {:induction false} OtherLineExact(infos: seq<LineInfo>, info: LineInfo, st: ScanState)
    requires Exact(infos, st) && !info.header && !st.mode.InEntry?
    ensures Exact(infos + [info], Step(st, info, |infos| + 1))
  {
    var infos', N, n := infos + [info], |infos|, |infos| + 1;
    StepKeeps(infos, info, st);
    assert infos'[n - 1] == info;
    forall h | 1 <= h <= N && Keyed(infos', h) ensures OwnedAt(infos', h, n) == [] {
      NewLineOwner(infos, info, h);
      assert infos'[h - 1] == infos[h - 1];
    }
    ExpectedUnchanged(infos', N, n);
    ExpectedGrow(infos, info, N);
    assert !Keyed(infos', n);
    assert Expected(infos', n, n) == Expected(infos', N, n) + [];
    var next := Step(st, info, n);
    assert Entries(next) == Entries(st);
    forall h | 1 <= h <= N ensures Open(infos', h) && Keyed(infos', h) ==> InsideAt(next, h) {
      OpenShrink(infos, info, h);
      assert infos'[h - 1] == infos[h - 1];
    }
  }

  lemma {:induction false} StepExact(infos: seq<LineInfo>, info: LineInfo, st: ScanState)
    requires Exact(infos, st)
    ensures Exact(infos + [info], Step(st, info, |infos| + 1))
  {
    if info.header {
      HeaderExact(infos, info, st);
    } else if st.mode.InEntry? {
      EntryLineExact(infos, info, st);
    } else {
      OtherLineExact(infos, info, st);
    }
  }

  lemma {:induction false} ScanExact(infos: seq<LineInfo>)
    ensures Exact(infos, Scan(infos))
  {
    if infos != [] {
      var init := infos[..|infos| - 1];
      ScanExact(init);
      StepExact(init, infos[|infos| - 1], Scan(init));
      assert init + [infos[|infos| - 1]] == infos;
    }
  }

  /** The scanner records one entry per header with a key, in line order, each holding exactly
      the declarations that belong to it. */
  lemma {:induction false} ScannedEntriesExact(infos: seq<LineInfo>)
    ensures Entries(Scan(infos)) == Expected(infos, |infos|, |infos|)
  {
    ScanExact(infos);
  }

  // ---------------------------------------------------------------------------------------
  // What the report then says about the declarations

  lemma {:induction false} OwnedAtIff(infos: seq<LineInfo>, h: nat, n: nat, o: Occurrence)
    requires 1 <= n <= |infos|
    ensures o in OwnedAt(infos, h, n) <==> o.line == n && BelongsTo(infos, h, o)
  {
  }

  /** The owned declarations are exactly those that belong to the entry. */
  lemma {:induction false} OwnedIff(infos: seq<LineInfo>, h: nat, m: nat, o: Occurrence)
    requires m <= |infos|
    ensures o in Owned(infos, h, m) <==> BelongsTo(infos, h, o) && o.line <= m
  {
    if m > 0 {
      OwnedIff(infos, h, m - 1, o);
      OwnedAtIff(infos, h, m, o);
    }
  }

  /** The owned declarations come in increasing line order. */
  lemma {:induction false} OwnedAscending(infos: seq<LineInfo>, h: nat, m: nat)
    requires m <= |infos|
    ensures Ascending(Owned(infos, h, m))
  {
    if m > 0 {
      OwnedAscending(infos, h, m - 1);
      var p := Owned(infos, h, m - 1);
      forall o | o in p ensures o.line < m {
        OwnedIff(infos, h, m - 1, o);
      }
      if OwnedAt(infos, h, m) == [] {
        assert Owned(infos, h, m) == p;
      } else {
        var q := p + OwnedAt(infos, h, m);
        assert forall k :: 0 <= k < |p| ==> q[k] == p[k] && p[k] in p;
      }
    }
  }

  /** A line belongs to at most one entry. */
  lemma OneOwner(infos: seq<LineInfo>, h1: nat, h2: nat, o: Occurrence)
    requires BelongsTo(infos, h1, o) && BelongsTo(infos, h2, o)
    requires Keyed(infos, h1) && Keyed(infos, h2)
    ensures h1 == h2
  {
  }

  /** The entry expected for the header on line h. */
  lemma {:induction false} ExpectedHas(infos: seq<LineInfo>, h: nat, m: nat, M: nat)
    requires Keyed(infos, h) && h <= m <= |infos| && M <= |infos|
    ensures ScannedEntry(infos[h - 1].key.value, h, Owned(infos, h, M)) in Expected(infos, m, M)
  {
    if m > h {
      ExpectedHas(infos, h, m - 1, M);
    }
  }

  lemma {:induction false} ReportHas(es: seq<ScannedEntry>, e: ScannedEntry, d: DuplicateField)
    requires e in es && d in EntryReport(e)
    ensures d in Report(es)
  {
    var init, last := es[..|es| - 1], es[|es| - 1];
    assert es == init + [last];
    ReportSnoc(init, last);
    if e != last {
      assert e in init;
      ReportHas(init, e, d);
    }
  }

  lemma TagHas(key: string, rs: seq<Repeat>, r: Repeat)
    requires r in rs
    ensures DuplicateField(key, r.name, r.first, r.line) in Tag(key, rs)
  {
    var k :| 0 <= k < |rs| && rs[k] == r;
    assert Tag(key, rs)[k] == DuplicateField(key, r.name, r.first, r.line);
  }

  /** A field declared twice in an entry is reported, under the entry's key, with the line of
      its first declaration in that entry and the line of the later one. */
  lemma FieldReportComplete(infos: seq<LineInfo>, h: nat, key: string, first: Occurrence, later: Occurrence)
    requires EntryHeader(infos, h, key)
    requires BelongsTo(infos, h, first) && BelongsTo(infos, h, later)
    requires first.name == later.name && first.line < later.line
    requires forall l :: 1 <= l < first.line ==> !BelongsTo(infos, h, Occurrence(first.name, l))
    ensures DuplicateField(key, first.name, first.line, later.line) in FieldReport(infos)
  {
    var N := |infos|;
    var fs := Owned(infos, h, N);
    OwnedIff(infos, h, N, first);
    OwnedIff(infos, h, N, later);
    OwnedAscending(infos, h, N);
    var i :| 0 <= i < |fs| && fs[i] == first;
    var j :| 0 <= j < |fs| && fs[j] == later;
    forall k | 0 <= k < i
      ensures fs[k].line < first.line && BelongsTo(infos, h, Occurrence(fs[k].name, fs[k].line))
    {
      OwnedIff(infos, h, N, fs[k]);
    }
    assert IsFirst(fs, i);
    RepeatsComplete(fs, i, j);
    TagHas(key, Repeats(fs), Repeat(first.name, first.line, later.line));
    ExpectedHas(infos, h, N, N);
    ScannedEntriesExact(infos);
    ReportHas(Entries(Scan(infos)), ScannedEntry(key, h, fs), DuplicateField(key, first.name, first.line, later.line));
  }

  /** A field declared twice in an entry is reported at its later declaration, paired with its
      first declaration in that entry, which is no later than the earlier of the two. */
  lemma FieldRepeatReported(infos: seq<LineInfo>, h: nat, key: string, earlier: Occurrence, later: Occurrence)
    requires EntryHeader(infos, h, key)
    requires BelongsTo(infos, h, earlier) && BelongsTo(infos, h, later)
    requires earlier.name == later.name && earlier.line < later.line
    ensures exists f: nat :: f <= earlier.line && DuplicateField(key, later.name, f, later.line) in FieldReport(infos)
  {
    var first := FirstDeclaration(infos, h, earlier);
    FieldReportComplete(infos, h, key, first, later);
  }

  /** The first declaration, in an entry, of a field the entry declares. */
  lemma FirstDeclaration(infos: seq<LineInfo>, h: nat, o: Occurrence) returns (first: Occurrence)
    requires BelongsTo(infos, h, o)
    ensures BelongsTo(infos, h, first) && first.name == o.name && first.line <= o.line
    ensures forall l :: 1 <= l < first.line ==> !BelongsTo(infos, h, Occurrence(o.name, l))
  {
    var N := |infos|;
    var fs := Owned(infos, h, N);
    OwnedIff(infos, h, N, o);
    OwnedAscending(infos, h, N);
    var j :| 0 <= j < |fs| && fs[j] == o;
    assert o.name in Names(fs);
    var i := FirstIndex(fs, o.name);
    first := fs[i];
    OwnedIff(infos, h, N, first);
    FirstIsEarliest(fs, i, o);
    forall l | 1 <= l < first.line ensures !BelongsTo(infos, h, Occurrence(o.name, l)) {
      OwnedIff(infos, h, N, Occurrence(o.name, l));
      FirstIsEarliest(fs, i, Occurrence(o.name, l));
    }
  }

  /** Number of declarations of `name` among lines 1 .. m that belong to the entry whose header
      is line h. */
  ghost function Declarations(infos: seq<LineInfo>, h: nat, name: string, m: nat): nat
    requires m <= |infos|
  {
    if m == 0 then 0
    else Declarations(infos, h, name, m - 1) + if BelongsTo(infos, h, Occurrence(name, m)) then 1 else 0
  }

  lemma {:induction false} CountOwned(infos: seq<LineInfo>, h: nat, name: string, m: nat)
    requires m <= |infos|
    ensures CountOf(Owned(infos, h, m), name) == Declarations(infos, h, name, m)
  {
    if m > 0 {
      CountOwned(infos, h, name, m - 1);
      OwnedStep(infos, h, name, m);
    }
  }

  lemma OwnedAtShape(infos: seq<LineInfo>, h: nat, n: nat)
    requires 1 <= n <= |infos|
    ensures |OwnedAt(infos, h, n)| <= 1
    ensures OwnedAt(infos, h, n) != [] ==> OwnedAt(infos, h, n)[0].line == n
  {
  }

  /** Line n adds one declaration of `name` to the entry exactly when it declares `name` and
      belongs to it. */
  lemma OwnedStep(infos: seq<LineInfo>, h: nat, name: string, n: nat)
    requires 1 <= n <= |infos|
    ensures CountOf(Owned(infos, h, n), name)
            == CountOf(Owned(infos, h, n - 1), name) + if BelongsTo(infos, h, Occurrence(name, n)) then 1 else 0
  {
    var q := OwnedAt(infos, h, n);
    OwnedAtShape(infos, h, n);
    CountAtMostOne(Owned(infos, h, n - 1), q, name);
    assert (q != [] && q[0].name == name) == BelongsTo(infos, h, Occurrence(name, n));
  }

  lemma CountAtMostOne(p: seq<Occurrence>, q: seq<Occurrence>, name: string)
    requires |q| <= 1
    ensures CountOf(p + q, name) == CountOf(p, name) + if q != [] && q[0].name == name then 1 else 0
  {
    if q == [] {
      assert p + q == p;
    } else {
      assert (p + q)[..|p|] == p;
    }
  }

  /** Number of diagnostics in ds for field `name` whose first line belongs to the entry whose
      header is line h. */
  ghost function DiagnosticsOf(infos: seq<LineInfo>, h: nat, name: string, ds: seq<DuplicateField>): nat {
    if ds == [] then 0
    else
      var d := ds[|ds| - 1];
      DiagnosticsOf(infos, h, name, ds[..|ds| - 1])
      + if d.field == name && BelongsTo(infos, h, Occurrence(name, d.firstLine)) then 1 else 0
  }

  lemma {:induction false} DiagnosticsAppend(infos: seq<LineInfo>, h: nat, name: string, a: seq<DuplicateField>, b: seq<DuplicateField>)
    ensures DiagnosticsOf(infos, h, name, a + b) == DiagnosticsOf(infos, h, name, a) + DiagnosticsOf(infos, h, name, b)
    decreases |b|
  {
    if b == [] {
      assert a + b == a;
    } else {
      assert (a + b)[..|a + b| - 1] == a + b[..|b| - 1];
      DiagnosticsAppend(infos, h, name, a, b[..|b| - 1]);
    }
  }

  /** Diagnostics tagged from repeats count as the repeats of `name` whose first line belongs to
      the entry. */
  lemma {:induction false} TagDiagnostics(infos: seq<LineInfo>, h: nat, name: string, key: string, rs: seq<Repeat>)
    ensures DiagnosticsOf(infos, h, name, Tag(key, rs)) == RepeatsOwned(infos, h, name, rs)
  {
    if rs != [] {
      var init := rs[..|rs| - 1];
      assert Tag(key, rs)[..|rs| - 1] == Tag(key, init);
      TagDiagnostics(infos, h, name, key, init);
    }
  }

  ghost function RepeatsOwned(infos: seq<LineInfo>, h: nat, name: string, rs: seq<Repeat>): nat {
    if rs == [] then 0
    else
      var r := rs[|rs| - 1];
      RepeatsOwned(infos, h, name, rs[..|rs| - 1])
      + if r.name == name && BelongsTo(infos, h, Occurrence(name, r.first)) then 1 else 0
  }

  /** Repeats all of whose first lines belong to the entry: each of `name` counts. */
  lemma {:induction false} RepeatsAllOwned(infos: seq<LineInfo>, h: nat, name: string, rs: seq<Repeat>)
    requires forall r :: r in rs ==> BelongsTo(infos, h, Occurrence(r.name, r.first))
    ensures RepeatsOwned(infos, h, name, rs) == RepeatsOf(rs, name)
  {
    if rs != [] {
      var init := rs[..|rs| - 1];
      assert forall r :: r in init ==> r in rs;
      assert rs[|rs| - 1] in rs;
      RepeatsAllOwned(infos, h, name, init);
    }
  }

  /** Repeats none of whose first lines belong to the entry: none counts. */
  lemma {:induction false} RepeatsNoneOwned(infos: seq<LineInfo>, h: nat, name: string, rs: seq<Repeat>)
    requires forall r :: r in rs ==> !BelongsTo(infos, h, Occurrence(r.name, r.first))
    ensures RepeatsOwned(infos, h, name, rs) == 0
  {
    if rs != [] {
      var init := rs[..|rs| - 1];
      assert forall r :: r in init ==> r in rs;
      assert rs[|rs| - 1] in rs;
      RepeatsNoneOwned(infos, h, name, init);
    }
  }

  /** The first line of every repeat among an entry's declarations belongs to that entry. */
  lemma RepeatFirstOwned(infos: seq<LineInfo>, h: nat, r: Repeat)
    requires r in Repeats(Owned(infos, h, |infos|))
    ensures BelongsTo(infos, h, Occurrence(r.name, r.first))
  {
    var fs := Owned(infos, h, |infos|);
    var k :| 0 <= k < |Repeats(fs)| && Repeats(fs)[k] == r;
    RepeatsSound(fs, k);
    var i, j :| 0 <= i < j < |fs| && IsFirst(fs, i) && fs[i] == Occurrence(r.name, r.first)
                && fs[j] == Occurrence(r.name, r.line);
    OwnedIff(infos, h, |infos|, fs[i]);
  }

  /** The diagnostics of the expected entries among headers 1 .. m that count for the entry of
      header h: those of that entry alone. */
  lemma {:induction false} ExpectedDiagnostics(infos: seq<LineInfo>, h: nat, name: string, m: nat)
    requires Keyed(infos, h) && m <= |infos|
    ensures DiagnosticsOf(infos, h, name, Report(Expected(infos, m, |infos|)))
            == if h <= m then RepeatsOf(Repeats(Owned(infos, h, |infos|)), name) else 0
  {
    var N := |infos|;
    if m > 0 {
      ExpectedDiagnostics(infos, h, name, m - 1);
      var prev := Expected(infos, m - 1, N);
      if Keyed(infos, m) {
        var e := ScannedEntry(infos[m - 1].key.value, m, Owned(infos, m, N));
        ReportSnoc(prev, e);
        DiagnosticsAppend(infos, h, name, Report(prev), EntryReport(e));
        TagDiagnostics(infos, h, name, e.key, Repeats(e.fields));
        if m == h {
          forall r | r in Repeats(e.fields) ensures BelongsTo(infos, h, Occurrence(r.name, r.first)) {
            RepeatFirstOwned(infos, h, r);
          }
          RepeatsAllOwned(infos, h, name, Repeats(e.fields));
        } else {
          forall r | r in Repeats(e.fields) ensures !BelongsTo(infos, h, Occurrence(r.name, r.first)) {
            RepeatFirstOwned(infos, m, r);
            OwnerDiffers(infos, h, m, Occurrence(r.name, r.first));
          }
          RepeatsNoneOwned(infos, h, name, Repeats(e.fields));
        }
      } else {
        assert Expected(infos, m, N) == prev;
      }
    }
  }

  lemma OwnerDiffers(infos: seq<LineInfo>, h: nat, m: nat, o: Occurrence)
    requires Keyed(infos, h) && Keyed(infos, m) && h != m && BelongsTo(infos, m, o)
    ensures !BelongsTo(infos, h, o)
  {
  }

  /** A field an entry declares n >= 1 times gets n - 1 diagnostics from that entry. */
  lemma FieldDiagnosticsCount(infos: seq<LineInfo>, h: nat, key: string, name: string)
    requires EntryHeader(infos, h, key)
    ensures var n := Declarations(infos, h, name, |infos|);
            DiagnosticsOf(infos, h, name, FieldReport(infos)) == if n == 0 then 0 else n - 1
  {
    ScannedEntriesExact(infos);
    ExpectedDiagnostics(infos, h, name, |infos|);
    RepeatsPerName(Owned(infos, h, |infos|), name);
    CountOwned(infos, h, name, |infos|);
  }

  /** No entry declares a field twice. */
  ghost predicate SingleDeclarations(infos: seq<LineInfo>) {
    forall h, o1, o2 :: Keyed(infos, h) && BelongsTo(infos, h, o1) && BelongsTo(infos, h, o2) && o1.name == o2.name
                        ==> o1.line == o2.line
  }

  /** No duplicate field diagnostic exactly when no entry declares a field twice. */
  lemma FieldReportEmptyIffSingle(infos: seq<LineInfo>)
    ensures FieldReport(infos) == [] <==> SingleDeclarations(infos)
  {
    if FieldReport(infos) != [] {
      FieldReportSound(infos, FieldReport(infos)[0]);
    }
    if !SingleDeclarations(infos) {
      var h, o1, o2 :| Keyed(infos, h) && BelongsTo(infos, h, o1) && BelongsTo(infos, h, o2)
                       && o1.name == o2.name && o1.line != o2.line;
      var key := infos[h - 1].key.value;
      if o1.line < o2.line {
        FieldRepeatReported(infos, h, key, o1, o2);
      } else {
        FieldRepeatReported(infos, h, key, o2, o1);
      }
    }
  }
}
