/** The semantic checks on parsed entries: the required fields of each known entry type, and
    the legacy (BibLaTeX-dialect) field names that have a standard BibTeX counterpart. Both read
    entries as the external BibTeX parser presents them. */
module EntryChecks {

  /** An entry as the external parser presents it: its type (lower-case), its citation key, the
      names of its flat fields (lower-case), and whether its author and editor person lists are
      non-empty. */
  datatype ParsedEntry = ParsedEntry(entryType: string, key: string, fields: set<string>,
                                     hasAuthor: bool, hasEditor: bool)

  /** What an entry type demands: an author, an author or an editor, or a flat field. */
  datatype Requirement = Author | AuthorOrEditor | Field(name: string)

  /** A semantic defect of one entry. */
  datatype EntryDefect =
    | MissingField(key: string, entryType: string, field: string)
    | MissingAuthorOrEditor(key: string, entryType: string)
    | LegacyField(key: string, found: string, canonical: string)

  // ---------------------------------------------------------------------------------------
  // Required fields

  /** The fixed table: what each known entry type requires, in order. */
  function Requirements(entryType: string): seq<Requirement> {
    if entryType == "article" then [Author, Field("title"), Field("journal"), Field("year")]
    else if entryType == "book" then [AuthorOrEditor, Field("title"), Field("publisher"), Field("year")]
    else if entryType == "inproceedings" then [Author, Field("title"), Field("booktitle"), Field("year")]
    else if entryType == "incollection" then
      [Author, Field("title"), Field("booktitle"), Field("publisher"), Field("year")]
    else []
  }

  predicate KnownType(entryType: string) {
    entryType == "article" || entryType == "book" || entryType == "inproceedings" || entryType == "incollection"
  }

  /** The author requirement is met by the person list, not by the flat field map; for a book,
      an editor will do instead. */
  predicate Satisfies(e: ParsedEntry, r: Requirement) {
    match r
    case Author => e.hasAuthor
    case AuthorOrEditor => e.hasAuthor || e.hasEditor
    case Field(name) => name in e.fields
  }

  /** The diagnostic for an unmet requirement. */
  function Defect(e: ParsedEntry, r: Requirement): EntryDefect {
    match r
    case Author => MissingField(e.key, e.entryType, "author")
    case AuthorOrEditor => MissingAuthorOrEditor(e.key, e.entryType)
    case Field(name) => MissingField(e.key, e.entryType, name)
  }

  /** The unmet requirements among `rs`, in order. */
  function Unmet(e: ParsedEntry, rs: seq<Requirement>): seq<EntryDefect> {
    if rs == [] then []
    else (if Satisfies(e, rs[0]) then [] else [Defect(e, rs[0])]) + Unmet(e, rs[1..])
  }

  function MissingFields(e: ParsedEntry): seq<EntryDefect> {
    Unmet(e, Requirements(e.entryType))
  }

  /** The required-field diagnostics of all entries, entry by entry. */
  function RequiredFieldReport(entries: seq<ParsedEntry>): seq<EntryDefect> {
    if entries == [] then []
    else RequiredFieldReport(entries[..|entries| - 1]) + MissingFields(entries[|entries| - 1])
  }

  /** A diagnostic of `Unmet` is exactly an unmet requirement's diagnostic. */
  lemma {:induction false} UnmetMember(e: ParsedEntry, rs: seq<Requirement>, d: EntryDefect)
    ensures d in Unmet(e, rs) <==> exists r :: r in rs && !Satisfies(e, r) && d == Defect(e, r)
  {
    if rs != [] {
      UnmetMember(e, rs[1..], d);
      if exists r :: r in rs && !Satisfies(e, r) && d == Defect(e, r) {
        var r :| r in rs && !Satisfies(e, r) && d == Defect(e, r);
        if r != rs[0] {
          assert r in rs[1..];
        }
      }
    }
  }

  /** No diagnostic for an entry exactly when it meets every requirement of its type. */
  lemma {:induction false} UnmetEmpty(e: ParsedEntry, rs: seq<Requirement>)
    ensures Unmet(e, rs) == [] <==> forall r :: r in rs ==> Satisfies(e, r)
  {
    if rs != [] {
      UnmetEmpty(e, rs[1..]);
      assert forall r :: r in rs <==> r == rs[0] || r in rs[1..];
    }
  }

  /** A diagnostic is in the report exactly when some entry misses a requirement of its type. */
  lemma {:induction false} RequiredFieldMember(entries: seq<ParsedEntry>, d: EntryDefect)
    ensures d in RequiredFieldReport(entries) <==>
              exists e, r :: e in entries && r in Requirements(e.entryType) && !Satisfies(e, r) && d == Defect(e, r)
  {
    if entries != [] {
      var init, e := entries[..|entries| - 1], entries[|entries| - 1];
      assert entries == init + [e];
      RequiredFieldMember(init, d);
      UnmetMember(e, Requirements(e.entryType), d);
      if exists e', r :: e' in entries && r in Requirements(e'.entryType) && !Satisfies(e', r) && d == Defect(e', r) {
        var e', r :| e' in entries && r in Requirements(e'.entryType) && !Satisfies(e', r) && d == Defect(e', r);
        if e' != e {
          assert e' in init;
        }
      }
    }
  }

  /** The check passes exactly when every entry meets every requirement of its type. */
  lemma {:induction false} RequiredFieldsPass(entries: seq<ParsedEntry>)
    ensures RequiredFieldReport(entries) == [] <==>
              forall e, r :: e in entries && r in Requirements(e.entryType) ==> Satisfies(e, r)
  {
    if entries != [] {
      var init, e := entries[..|entries| - 1], entries[|entries| - 1];
      assert entries == init + [e];
      RequiredFieldsPass(init);
      UnmetEmpty(e, Requirements(e.entryType));
      assert forall x :: x in entries <==> x in init || x == e;
    }
  }

  /** An entry of a type outside the table has no required fields. */
  lemma UnknownTypePasses(e: ParsedEntry)
    requires !KnownType(e.entryType)
    ensures MissingFields(e) == []
  {
  }

  /** A book with its title, publisher and year passes with an author or with an editor, and
      with neither gets the one author-or-editor diagnostic. */
  lemma BookAuthorOrEditor(e: ParsedEntry)
    requires e.entryType == "book" && "title" in e.fields && "publisher" in e.fields && "year" in e.fields
    ensures MissingFields(e) == (if e.hasAuthor || e.hasEditor then [] else [MissingAuthorOrEditor(e.key, "book")])
  {
    var rs := [AuthorOrEditor, Field("title"), Field("publisher"), Field("year")];
    assert Requirements(e.entryType) == rs;
    assert Unmet(e, rs[1..]) == [] by {
      UnmetEmpty(e, rs[1..]);
    }
  }

  /** An article with author and title only is reported for its journal and its year. */
  lemma ArticleMissingJournalAndYear(e: ParsedEntry)
    requires e.entryType == "article" && e.hasAuthor && e.fields == {"title"}
    ensures MissingFields(e) == [MissingField(e.key, "article", "journal"), MissingField(e.key, "article", "year")]
  {
    var rs := [Author, Field("title"), Field("journal"), Field("year")];
    assert Requirements(e.entryType) == rs;
    assert "journal" != "title" && "year" != "title";
    assert rs[1..][1..][1..][1..] == [];
    assert Unmet(e, rs[3..]) == [MissingField(e.key, "article", "year")];
    assert Unmet(e, rs[2..]) == [MissingField(e.key, "article", "journal"), MissingField(e.key, "article", "year")];
    assert Unmet(e, rs[1..]) == Unmet(e, rs[2..]);
  }

  /** Complete entries of every known type pass: with an author, a title and a year, and the
      journal, booktitle or publisher their type asks for. */
  lemma CompleteEntriesPass(e: ParsedEntry)
    requires e.hasAuthor && "title" in e.fields && "year" in e.fields
    requires e.entryType == "article" ==> "journal" in e.fields
    requires e.entryType == "inproceedings" || e.entryType == "incollection" ==> "booktitle" in e.fields
    requires e.entryType == "incollection" || e.entryType == "book" ==> "publisher" in e.fields
    ensures MissingFields(e) == []
  {
    UnmetEmpty(e, Requirements(e.entryType));
  }

  // ---------------------------------------------------------------------------------------
  // Legacy fields

  /** The fixed table of legacy field names and their standard counterparts. */
  const LegacyTable: seq<(string, string)> := [("journaltitle", "journal"), ("date", "year"), ("location", "address")]

  /** The legacy names among `table` that the entry uses, in table order. */
  function LegacyUses(e: ParsedEntry, table: seq<(string, string)>): seq<EntryDefect> {
    if table == [] then []
    else (if table[0].0 in e.fields then [LegacyField(e.key, table[0].0, table[0].1)] else [])
         + LegacyUses(e, table[1..])
  }

  /** The legacy-field diagnostics of all entries, entry by entry. */
  function LegacyFieldReport(entries: seq<ParsedEntry>): seq<EntryDefect> {
    if entries == [] then []
    else LegacyFieldReport(entries[..|entries| - 1]) + LegacyUses(entries[|entries| - 1], LegacyTable)
  }

  lemma {:induction false} LegacyUsesMember(e: ParsedEntry, table: seq<(string, string)>, d: EntryDefect)
    ensures d in LegacyUses(e, table) <==>
              exists p :: p in table && p.0 in e.fields && d == LegacyField(e.key, p.0, p.1)
  {
    if table != [] {
      LegacyUsesMember(e, table[1..], d);
      if exists p :: p in table && p.0 in e.fields && d == LegacyField(e.key, p.0, p.1) {
        var p :| p in table && p.0 in e.fields && d == LegacyField(e.key, p.0, p.1);
        if p != table[0] {
          assert p in table[1..];
        }
      }
    }
  }

  /** A diagnostic is in the report exactly when some entry uses a legacy name: it names the
      entry's key, the name found and the standard name to use instead. */
  lemma {:induction false} LegacyFieldMember(entries: seq<ParsedEntry>, d: EntryDefect)
    ensures d in LegacyFieldReport(entries) <==>
              exists e, p :: e in entries && p in LegacyTable && p.0 in e.fields && d == LegacyField(e.key, p.0, p.1)
  {
    if entries != [] {
      var init, e := entries[..|entries| - 1], entries[|entries| - 1];
      assert entries == init + [e];
      LegacyFieldMember(init, d);
      LegacyUsesMember(e, LegacyTable, d);
      if exists e', p :: e' in entries && p in LegacyTable && p.0 in e'.fields && d == LegacyField(e'.key, p.0, p.1) {
        var e', p :| e' in entries && p in LegacyTable && p.0 in e'.fields && d == LegacyField(e'.key, p.0, p.1);
        if e' != e {
          assert e' in init;
        }
      }
    }
  }

  /** The check passes exactly when no entry uses any legacy name. */
  lemma LegacyFieldsPass(entries: seq<ParsedEntry>)
    ensures LegacyFieldReport(entries) == [] <==>
              forall e, p :: e in entries && p in LegacyTable ==> p.0 !in e.fields
  {
    if LegacyFieldReport(entries) != [] {
      LegacyFieldMember(entries, LegacyFieldReport(entries)[0]);
    } else {
      forall e, p | e in entries && p in LegacyTable ensures p.0 !in e.fields {
        if p.0 in e.fields {
          LegacyFieldMember(entries, LegacyField(e.key, p.0, p.1));
        }
      }
    }
  }

  /** `journaltitle`, `date` and `location` are each reported with `journal`, `year` and
      `address` respectively. */
  lemma LegacyNamesReported(e: ParsedEntry)
    ensures "journaltitle" in e.fields ==> LegacyField(e.key, "journaltitle", "journal") in LegacyFieldReport([e])
    ensures "date" in e.fields ==> LegacyField(e.key, "date", "year") in LegacyFieldReport([e])
    ensures "location" in e.fields ==> LegacyField(e.key, "location", "address") in LegacyFieldReport([e])
  {
    assert [e][..0] == [];
    LegacyUsesMember(e, LegacyTable, LegacyField(e.key, "journaltitle", "journal"));
    LegacyUsesMember(e, LegacyTable, LegacyField(e.key, "date", "year"));
    LegacyUsesMember(e, LegacyTable, LegacyField(e.key, "location", "address"));
    assert LegacyTable[0] in LegacyTable && LegacyTable[1] in LegacyTable && LegacyTable[2] in LegacyTable;
  }
}
