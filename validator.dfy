/** The validation orchestrator: ordered, short-circuiting stages over one file.
    1. The text must decode as UTF-8; if it does not, that one diagnostic is the whole report.
    2. The escape, duplicate-key and duplicate-field checks run on the decoded text.
    3. The external parser must accept the text; if it does not, a syntax diagnostic is added and
       stage 4 is skipped.
    4. The required-field and legacy-field checks run on the parsed entries.
    The file is valid exactly when no stage reported anything. */
module Validator {

  import opened Wrappers
  import opened Text
  import opened Occurrences
  import opened DuplicateKeys
  import opened FieldScanner
  import opened LatexEscapes
  import opened EntryChecks

  /** What the collaborators outside the model say about an existing file: its text, when its
      bytes decode as UTF-8, and the parser's entries, when the parser accepts the text. */
  datatype BibFile = BibFile(decoded: Option<string>, parsed: Option<seq<ParsedEntry>>)

  datatype Diagnostic =
    | FileNotFound
    | InvalidEncoding
    | LatexEscape(escape: EscapeDiagnostic)
    | DuplicateKey(repeat: Repeat)
    | RepeatedField(duplicate: DuplicateField)
    | SyntaxError
    | Semantic(defect: EntryDefect)

  datatype ValidationReport = ValidationReport(valid: bool, errors: seq<Diagnostic>)

  function Escapes(ds: seq<EscapeDiagnostic>): (r: seq<Diagnostic>)
    ensures |r| == |ds| && forall k :: 0 <= k < |ds| ==> r[k] == LatexEscape(ds[k])
  {
    seq(|ds|, k requires 0 <= k < |ds| => LatexEscape(ds[k]))
  }

  function Keys(rs: seq<Repeat>): (r: seq<Diagnostic>)
    ensures |r| == |rs| && forall k :: 0 <= k < |rs| ==> r[k] == DuplicateKey(rs[k])
  {
    seq(|rs|, k requires 0 <= k < |rs| => DuplicateKey(rs[k]))
  }

  function Fields(fs: seq<DuplicateField>): (r: seq<Diagnostic>)
    ensures |r| == |fs| && forall k :: 0 <= k < |fs| ==> r[k] == RepeatedField(fs[k])
  {
    seq(|fs|, k requires 0 <= k < |fs| => RepeatedField(fs[k]))
  }

  function Defects(ds: seq<EntryDefect>): (r: seq<Diagnostic>)
    ensures |r| == |ds| && forall k :: 0 <= k < |ds| ==> r[k] == Semantic(ds[k])
  {
    seq(|ds|, k requires 0 <= k < |ds| => Semantic(ds[k]))
  }

  /** Stage 2: the checks on the decoded text, in order. */
  function TextErrors(content: string): seq<Diagnostic> {
    var lines := SplitLines(content);
    Escapes(LatexEscapeReport(content)) + Keys(DuplicateKeyReport(lines)) + Fields(DuplicateFieldReport(lines))
  }

  /** Stage 4: the checks on the parsed entries, in order. */
  function EntryErrors(entries: seq<ParsedEntry>): seq<Diagnostic> {
    Defects(RequiredFieldReport(entries)) + Defects(LegacyFieldReport(entries))
  }

  function Verdict(errors: seq<Diagnostic>): ValidationReport {
    ValidationReport(errors == [], errors)
  }

  /** The whole validation of a file, or of a path where no file exists (`None`). */
  function Validation(file: Option<BibFile>): ValidationReport {
    match file
    case None => Verdict([FileNotFound])
    case Some(f) =>
      match f.decoded
      case None => Verdict([InvalidEncoding])
      case Some(content) =>
        match f.parsed
        case None => Verdict(TextErrors(content) + [SyntaxError])
        case Some(entries) => Verdict(TextErrors(content) + EntryErrors(entries))
  }

  /** The orchestrator running the checks themselves. */
  method Validate(file: Option<BibFile>) returns (report: ValidationReport)
    ensures report == Validation(file)
  {
    if file.None? {
      return Verdict([FileNotFound]);
    }
    var f := file.value;
    if f.decoded.None? {
      return Verdict([InvalidEncoding]);
    }
    var content := f.decoded.value;
    var escapes := CheckLatexEscapes(content);
    var keys := CheckDuplicateKeys(content);
    var fields := CheckDuplicateFields(content);
    var errors := Escapes(escapes) + Keys(keys) + Fields(fields);
    assert errors == TextErrors(content);
    if f.parsed.None? {
      errors := errors + [SyntaxError];
    } else {
      var entries := f.parsed.value;
      errors := errors + (Defects(RequiredFieldReport(entries)) + Defects(LegacyFieldReport(entries)));
    }
    report := Verdict(errors);
  }

  // ---------------------------------------------------------------------------------------
  // What the orchestrator promises

  /** A file is valid exactly when it exists, decodes, parses and every check comes back empty. */
  lemma ValidIff(file: Option<BibFile>)
    ensures Validation(file).valid <==> Validation(file).errors == []
    ensures Validation(file).valid <==>
              && file.Some? && file.value.decoded.Some? && file.value.parsed.Some?
              && LatexEscapeReport(file.value.decoded.value) == []
              && DuplicateKeyReport(SplitLines(file.value.decoded.value)) == []
              && DuplicateFieldReport(SplitLines(file.value.decoded.value)) == []
              && RequiredFieldReport(file.value.parsed.value) == []
              && LegacyFieldReport(file.value.parsed.value) == []
  {
  }

  /** A missing file gives exactly one diagnostic, and it says the file was not found. */
  lemma NotFoundOnly()
    ensures !Validation(None).valid && Validation(None).errors == [FileNotFound]
  {
  }

  /** Text that does not decode stops the validation: the encoding diagnostic is the only one,
      whatever the parser would have said. */
  lemma EncodingStopsEarly(parsed: Option<seq<ParsedEntry>>)
    ensures Validation(Some(BibFile(None, parsed))) == ValidationReport(false, [InvalidEncoding])
  {
  }

  /** Text the parser rejects is reported as a syntax error, and no required-field or
      legacy-field diagnostic follows. */
  lemma SyntaxSkipsEntryChecks(content: string)
    ensures SyntaxError in Validation(Some(BibFile(Some(content), None))).errors
    ensures !Validation(Some(BibFile(Some(content), None))).valid
    ensures forall d :: d in Validation(Some(BibFile(Some(content), None))).errors ==> !d.Semantic?
  {
    var t := TextErrors(content);
    assert Validation(Some(BibFile(Some(content), None))).errors == t + [SyntaxError];
    TextErrorsNotSemantic(content);
  }

  /** The text checks never produce an entry defect. */
  lemma TextErrorsNotSemantic(content: string)
    ensures forall d :: d in TextErrors(content) ==> !d.Semantic?
  {
    var lines := SplitLines(content);
    NotSemantic(LatexEscapeReport(content), DuplicateKeyReport(lines), DuplicateFieldReport(lines));
  }

  lemma NotSemantic(es: seq<EscapeDiagnostic>, ks: seq<Repeat>, fs: seq<DuplicateField>)
    ensures forall d :: d in Escapes(es) + Keys(ks) + Fields(fs) ==> !d.Semantic?
  {
    forall d: Diagnostic | d in Escapes(es) + Keys(ks) + Fields(fs) ensures !d.Semantic? {
      if d in Escapes(es) {
        var k :| 0 <= k < |es| && Escapes(es)[k] == d;
      } else if d in Keys(ks) {
        var k :| 0 <= k < |ks| && Keys(ks)[k] == d;
      } else {
        var k :| 0 <= k < |fs| && Fields(fs)[k] == d;
      }
    }
  }

  /** The diagnostics of independent checks accumulate: every one of them is in the report, and
      the report holds exactly as many as they produce together. */
  lemma ErrorsAccumulate(content: string, entries: seq<ParsedEntry>)
    ensures var r := Validation(Some(BibFile(Some(content), Some(entries))));
            var lines := SplitLines(content);
            && |r.errors| == |LatexEscapeReport(content)| + |DuplicateKeyReport(lines)| + |DuplicateFieldReport(lines)|
                             + |RequiredFieldReport(entries)| + |LegacyFieldReport(entries)|
            && (forall x :: x in DuplicateKeyReport(lines) ==> DuplicateKey(x) in r.errors)
            && (forall x :: x in DuplicateFieldReport(lines) ==> RepeatedField(x) in r.errors)
            && (forall x :: x in LatexEscapeReport(content) ==> LatexEscape(x) in r.errors)
            && (forall x :: x in RequiredFieldReport(entries) ==> Semantic(x) in r.errors)
            && (forall x :: x in LegacyFieldReport(entries) ==> Semantic(x) in r.errors)
  {
    var lines := SplitLines(content);
    var es, ks, fs := LatexEscapeReport(content), DuplicateKeyReport(lines), DuplicateFieldReport(lines);
    var rq, lg := RequiredFieldReport(entries), LegacyFieldReport(entries);
    var errors := Escapes(es) + Keys(ks) + Fields(fs) + (Defects(rq) + Defects(lg));
    assert Validation(Some(BibFile(Some(content), Some(entries)))).errors == errors;
    forall x | x in ks ensures DuplicateKey(x) in errors {
      var k :| 0 <= k < |ks| && ks[k] == x;
      assert Keys(ks)[k] in Keys(ks);
    }
    forall x | x in fs ensures RepeatedField(x) in errors {
      var k :| 0 <= k < |fs| && fs[k] == x;
      assert Fields(fs)[k] in Fields(fs);
    }
    forall x | x in es ensures LatexEscape(x) in errors {
      var k :| 0 <= k < |es| && es[k] == x;
      assert Escapes(es)[k] in Escapes(es);
    }
    forall x | x in rq ensures Semantic(x) in errors {
      var k :| 0 <= k < |rq| && rq[k] == x;
      assert Defects(rq)[k] in Defects(rq);
    }
    forall x | x in lg ensures Semantic(x) in errors {
      var k :| 0 <= k < |lg| && lg[k] == x;
      assert Defects(lg)[k] in Defects(lg);
    }
  }
}
