/** The line-oriented entry scanner and the duplicate field check built on it.

    The scanner reads a text line by line, tracking brace depth. A header line (`@type{key,`)
    always ends the entry before it and opens a new one; a `@comment` header, or a header with
    no key, opens a block whose lines are only counted for their braces. Inside an entry, a line
    that starts at depth exactly 1 and declares `name = ...` records that field; text inside a
    multi-line braced value (depth 2 or more) is never taken for a field. When the depth falls
    to 0 or below the entry or block is closed. A field given on the header line itself, after
    the key, is recorded too. Each entry's repeated field names are reported, one diagnostic per
    extra occurrence, with the line of the first occurrence and of the repeat. */
module FieldScanner {

  import opened Wrappers
  import opened Text
  import opened BibLine
  import opened Occurrences

  /** What the scanner reads from one line: whether it is a header, the key it opens an entry
      under (none for `@comment` and for unkeyed headers), the field it declares, and its brace
      balance. */
  datatype LineInfo = LineInfo(header: bool, key: Option<string>, field: Option<string>, delta: int)

  function Classify(line: string): LineInfo {
    LineInfo(IsHeader(line), KeyOf(line),
             match DeclaredField(line) case None => None case Some(d) => Some(d.name),
             BraceDelta(line))
  }

  /** The lines' classifications, line by line. */
  function Infos(lines: seq<string>): (infos: seq<LineInfo>)
    ensures |infos| == |lines|
  {
    if lines == [] then [] else Infos(lines[..|lines| - 1]) + [Classify(lines[|lines| - 1])]
  }

  lemma {:induction false} InfosAt(lines: seq<string>, i: nat)
    requires i < |lines|
    ensures Infos(lines)[i] == Classify(lines[i])
  {
    if i < |lines| - 1 {
      InfosAt(lines[..|lines| - 1], i);
    }
  }

  lemma {:induction false} InfosPrefix(lines: seq<string>, i: nat)
    requires i <= |lines|
    ensures Infos(lines[..i]) == Infos(lines)[..i]
    decreases |lines|
  {
    if i < |lines| {
      var init := lines[..|lines| - 1];
      assert lines[..i] == init[..i];
      InfosPrefix(init, i);
    } else {
      assert lines[..i] == lines;
    }
  }

  /** An entry as scanned: its key and its depth-1 fields with their 1-based line numbers. */
  datatype ScannedEntry = ScannedEntry(key: string, line: nat, fields: seq<Occurrence>)

  /** Outside any entry; inside a block whose interior is skipped; or inside an entry. */
  datatype Mode = Outside | Skipping | InEntry(key: string, line: nat, fields: seq<Occurrence>)

  datatype ScanState = ScanState(depth: int, mode: Mode, closed: seq<ScannedEntry>)

  const Start := ScanState(0, Outside, [])

  /** The entries scanned so far, the open one included. */
  function Entries(st: ScanState): seq<ScannedEntry> {
    st.closed + match st.mode
                case InEntry(k, h, fs) => [ScannedEntry(k, h, fs)]
                case _ => []
  }

  /** Closes the open entry or block once the depth has fallen to 0 or below. */
  function Settle(st: ScanState): ScanState {
    if st.depth <= 0 then ScanState(0, Outside, Entries(st)) else st
  }

  /** The field a line declares, as an occurrence at line n. */
  function FieldEvent(field: Option<string>, n: nat): seq<Occurrence> {
    match field
    case None => []
    case Some(f) => [Occurrence(f, n)]
  }

  /** The scanner's step on the n-th line. */
  function Step(st: ScanState, info: LineInfo, n: nat): ScanState {
    if info.header then
      var mode := match info.key
                  case None => Skipping
                  case Some(k) => InEntry(k, n, FieldEvent(info.field, n));
      Settle(ScanState(info.delta, mode, Entries(st)))
    else
      match st.mode
      case Outside => st
      case Skipping => Settle(ScanState(st.depth + info.delta, Skipping, st.closed))
      case InEntry(k, h, fs) =>
        var fs' := if st.depth == 1 then fs + FieldEvent(info.field, n) else fs;
        Settle(ScanState(st.depth + info.delta, InEntry(k, h, fs'), st.closed))
  }

  /** The scanner's state after the given lines. */
  function Scan(infos: seq<LineInfo>): ScanState {
    if infos == [] then Start
    else Step(Scan(infos[..|infos| - 1]), infos[|infos| - 1], |infos|)
  }

  // ---------------------------------------------------------------------------------------
  // The duplicate field report

  datatype DuplicateField = DuplicateField(key: string, field: string, firstLine: nat, line: nat)

  function Tag(key: string, rs: seq<Repeat>): (ds: seq<DuplicateField>)
    ensures |ds| == |rs|
  {
    seq(|rs|, i requires 0 <= i < |rs| => DuplicateField(key, rs[i].name, rs[i].first, rs[i].line))
  }

  function EntryReport(e: ScannedEntry): seq<DuplicateField> {
    Tag(e.key, Repeats(e.fields))
  }

  function Report(es: seq<ScannedEntry>): seq<DuplicateField> {
    if es == [] then [] else Report(es[..|es| - 1]) + EntryReport(es[|es| - 1])
  }

  /** The duplicate field diagnostics of classified lines. */
  function FieldReport(infos: seq<LineInfo>): seq<DuplicateField> {
    Report(Entries(Scan(infos)))
  }

  /** The duplicate field diagnostics of a text given as lines. */
  function DuplicateFieldReport(lines: seq<string>): seq<DuplicateField> {
    FieldReport(Infos(lines))
  }

  lemma ReportSnoc(es: seq<ScannedEntry>, e: ScannedEntry)
    ensures Report(es + [e]) == Report(es) + EntryReport(e)
  {
    assert (es + [e])[..|es|] == es;
  }

  lemma EntryReportSnoc(k: string, h: nat, fs: seq<Occurrence>, o: Occurrence)
    ensures EntryReport(ScannedEntry(k, h, fs + [o]))
            == EntryReport(ScannedEntry(k, h, fs))
               + if o.name in FirstLines(fs) then [DuplicateField(k, o.name, FirstLines(fs)[o.name], o.line)]
                 else []
  {
    Snoc(fs, o);
  }

  lemma EntryReportSingle(k: string, h: nat, fs: seq<Occurrence>)
    requires |fs| <= 1
    ensures EntryReport(ScannedEntry(k, h, fs)) == []
  {
    if |fs| == 1 {
      assert fs == [] + [fs[0]];
      Snoc([], fs[0]);
    }
  }

  /** The variables of the line loop: brace depth, whether an entry or a skipped block is open,
      the open entry's key, the line on which each of its fields was first seen, and the
      diagnostics so far. */
  datatype Cursor = Cursor(depth: int, inEntry: bool, skipping: bool, key: string,
                           seen: map<string, nat>, errors: seq<DuplicateField>)

  const Initial := Cursor(0, false, false, "", map[], [])

  /** The loop variables describe the scanner state `st`. */
  ghost predicate Tracks(st: ScanState, c: Cursor) {
    && c.depth == st.depth
    && (st.mode.Outside? ==> st.depth == 0)
    && c.inEntry == st.mode.InEntry? && c.skipping == st.mode.Skipping?
    && (c.inEntry ==> c.key == st.mode.key && c.seen == FirstLines(st.mode.fields))
    && c.errors == Report(Entries(st))
  }

  lemma ScanSnoc(infos: seq<LineInfo>, i: nat, st: ScanState, next: ScanState)
    requires i < |infos| && st == Scan(infos[..i]) && Step(st, infos[i], i + 1) == next
    ensures Scan(infos[..i + 1]) == next
  {
    assert infos[..i + 1][..i] == infos[..i];
  }

  /** The step on a `@comment` or unkeyed header, before the depth check. */
  ghost function StepUnkeyedHeader(st: ScanState, info: LineInfo, n: nat): (next: ScanState)
    requires info.header && info.key.None?
    ensures Step(st, info, n) == Settle(next)
    ensures next.depth == info.delta && next.mode == Skipping
    ensures Report(Entries(next)) == Report(Entries(st))
  {
    var next := ScanState(info.delta, Skipping, Entries(st));
    assert Entries(next) == Entries(st);
    next
  }

  /** The step on a keyed header, before the depth check: the entry opens with the field
      declared on the header line, if any. */
  ghost function StepKeyedHeader(st: ScanState, info: LineInfo, n: nat): (next: ScanState)
    requires info.header && info.key.Some?
    ensures Step(st, info, n) == Settle(next)
    ensures next.depth == info.delta && next.mode.InEntry? && next.mode.key == info.key.value
    ensures FirstLines(next.mode.fields) == match info.field
                                            case None => map[]
                                            case Some(f) => map[f := n]
    ensures Report(Entries(next)) == Report(Entries(st))
  {
    var e := ScannedEntry(info.key.value, n, FieldEvent(info.field, n));
    var next := ScanState(info.delta, InEntry(e.key, n, e.fields), Entries(st));
    OpenedEntry(Entries(st), e.key, n, info.field);
    assert Entries(next) == Entries(st) + [e];
    next
  }

  /** An entry just opened holds at most the field of its header line, and adds no diagnostic. */
  lemma OpenedEntry(closed: seq<ScannedEntry>, k: string, n: nat, field: Option<string>)
    ensures FirstLines(FieldEvent(field, n)) == match field
                                                case None => map[]
                                                case Some(f) => map[f := n]
    ensures Report(closed + [ScannedEntry(k, n, FieldEvent(field, n))]) == Report(closed)
  {
    var fs := FieldEvent(field, n);
    EntryReportSingle(k, n, fs);
    ReportSnoc(closed, ScannedEntry(k, n, fs));
    if field.Some? {
      Snoc([], Occurrence(field.value, n));
      assert fs == [] + [Occurrence(field.value, n)];
    }
  }

  /** One more field in the open entry: its map and its report grow as for any occurrence. */
  lemma OpenEntryGrows(closed: seq<ScannedEntry>, k: string, h: nat, fs: seq<Occurrence>, o: Occurrence)
    ensures FirstLines(fs + [o]) == if o.name in FirstLines(fs) then FirstLines(fs)
                                    else FirstLines(fs)[o.name := o.line]
    ensures Report(closed + [ScannedEntry(k, h, fs + [o])])
            == Report(closed + [ScannedEntry(k, h, fs)])
               + if o.name in FirstLines(fs) then [DuplicateField(k, o.name, FirstLines(fs)[o.name], o.line)]
                 else []
  {
    EntryReportSnoc(k, h, fs, o);
    ReportSnoc(closed, ScannedEntry(k, h, fs));
    ReportSnoc(closed, ScannedEntry(k, h, fs + [o]));
    Snoc(fs, o);
  }

  /** The step on any other line inside an entry, before the depth check. */
  ghost function StepOtherLine(st: ScanState, info: LineInfo, n: nat): (next: ScanState)
    requires !info.header && st.mode.InEntry? && !(st.depth == 1 && info.field.Some?)
    ensures Step(st, info, n) == Settle(next)
    ensures next == ScanState(st.depth + info.delta, st.mode, st.closed)
  {
    assert st.depth == 1 ==> st.mode.fields + FieldEvent(info.field, n) == st.mode.fields;
    ScanState(st.depth + info.delta, st.mode, st.closed)
  }

  /** The step on a line declaring a field at depth 1, before the depth check: the field is
      appended to the open entry's. */
  ghost function StepFieldLine(st: ScanState, info: LineInfo, n: nat): (next: ScanState)
    requires !info.header && st.mode.InEntry? && st.depth == 1 && info.field.Some?
    ensures Step(st, info, n) == Settle(next)
    ensures next == ScanState(st.depth + info.delta,
                              InEntry(st.mode.key, st.mode.line, st.mode.fields + [Occurrence(info.field.value, n)]),
                              st.closed)
  {
    assert FieldEvent(info.field, n) == [Occurrence(info.field.value, n)];
    ScanState(st.depth + info.delta,
              InEntry(st.mode.key, st.mode.line, st.mode.fields + [Occurrence(info.field.value, n)]),
              st.closed)
  }

  /** Closing the entry or block: the loop's depth is reset to 0 and its flags cleared. */
  lemma SettleTracks(st: ScanState, c: Cursor)
    requires Tracks(st, c)
    ensures c.depth <= 0 ==> Tracks(Settle(st), c.(depth := 0, inEntry := false, skipping := false))
  {
    if c.depth <= 0 {
      assert Entries(Settle(st)) == Entries(st);
    }
  }

  /** The loop step on one line: the cursor follows the scanner's `Step`. */
  method Advance(ghost st: ScanState, info: LineInfo, n: nat, c: Cursor)
    returns (ghost next: ScanState, c': Cursor)
    requires Tracks(st, c)
    ensures next == Step(st, info, n) && Tracks(next, c')
  {
    ghost var open: ScanState;
    if info.header {
      match info.key {
        case None =>
          open := StepUnkeyedHeader(st, info, n);
          c' := c.(depth := info.delta, inEntry := false, skipping := true);
        case Some(k) =>
          open := StepKeyedHeader(st, info, n);
          var seen := match info.field
                      case None => map[]
                      case Some(f) => map[f := n];
          c' := c.(depth := info.delta, inEntry := true, skipping := false, key := k, seen := seen);
      }
    } else if c.inEntry {
      open, c' := EntryLineStep(st, info, n, c);
    } else if c.skipping {
      open := ScanState(st.depth + info.delta, Skipping, st.closed);
      c' := c.(depth := c.depth + info.delta);
    } else {
      open := st;
      c' := c;
    }
    SettleTracks(open, c');
    if c'.depth <= 0 {
      c' := c'.(depth := 0, inEntry := false, skipping := false);
    }
    next := Settle(open);
  }

  /** The loop step on a line inside an entry: a field at depth 1 is checked against the
      entry's earlier fields and recorded. The depth check is left to the caller. */
  method EntryLineStep(ghost st: ScanState, info: LineInfo, n: nat, c: Cursor)
    returns (ghost open: ScanState, c': Cursor)
    requires !info.header && c.inEntry && Tracks(st, c)
    ensures Step(st, info, n) == Settle(open)
    ensures c'.depth == c.depth + info.delta
    ensures Tracks(open, c')
  {
    if c.depth == 1 && info.field.Some? {
      open, c' := FieldLineStep(st, info, n, c);
    } else {
      open := StepOtherLine(st, info, n);
      c' := c.(depth := c.depth + info.delta);
    }
  }

  /** A field declared at depth 1 is checked against the entry's earlier fields and recorded. */
  method FieldLineStep(ghost st: ScanState, info: LineInfo, n: nat, c: Cursor)
    returns (ghost open: ScanState, c': Cursor)
    requires !info.header && c.inEntry && Tracks(st, c) && c.depth == 1 && info.field.Some?
    ensures Step(st, info, n) == Settle(open)
    ensures c'.depth == c.depth + info.delta
    ensures Tracks(open, c')
  {
    var f := info.field.value;
    OpenEntryGrows(st.closed, c.key, st.mode.line, st.mode.fields, Occurrence(f, n));
    open := StepFieldLine(st, info, n);
    c' := c.(depth := c.depth + info.delta);
    if f in c.seen {
      c' := c'.(errors := c.errors + [DuplicateField(c.key, f, c.seen[f], n)]);
    } else {
      c' := c'.(seen := c.seen[f := n]);
    }
  }

  /** The check over a text: it is split into lines, each line is classified, and the
      classified lines are scanned one by one. */
  method CheckDuplicateFields(content: string) returns (errors: seq<DuplicateField>)
    ensures errors == DuplicateFieldReport(SplitLines(content))
  {
    var infos := ClassifyLines(SplitLines(content));
    errors := ScanForDuplicateFields(infos);
  }

  method ClassifyLines(lines: seq<string>) returns (infos: seq<LineInfo>)
    ensures infos == Infos(lines)
  {
    infos := [];
    var i := 0;
    while i < |lines|
      invariant 0 <= i <= |lines|
      invariant infos == Infos(lines[..i])
    {
      assert lines[..i + 1][..i] == lines[..i];
      infos := infos + [Classify(lines[i])];
      i := i + 1;
    }
    assert lines[..|lines|] == lines;
  }

  /** The line loop keeps the brace depth, whether an entry or a skipped block is open, the open
      entry's key and the map from each of its field names to the line it was first declared on. */
  method ScanForDuplicateFields(infos: seq<LineInfo>) returns (errors: seq<DuplicateField>)
    ensures errors == FieldReport(infos)
  {
    var c := Initial;
    var i := 0;
    ghost var st := Start;
    while i < |infos|
      invariant 0 <= i <= |infos|
      invariant st == Scan(infos[..i])
      invariant Tracks(st, c)
    {
      ghost var next;
      next, c := Advance(st, infos[i], i + 1, c);
      ScanSnoc(infos, i, st, next);
      st := next;
      i := i + 1;
    }
    assert infos[..|infos|] == infos;
    errors := c.errors;
  }
}
