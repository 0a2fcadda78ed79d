/** The duplicate field check on whole texts: classifying the lines of a header, one field
    declaration per line and a closing brace gives the one-field-per-line entry whose report is
    known, so the check's result on such a text follows from the field names alone. */
module FieldCases {

  import opened Wrappers
  import opened Text
  import opened BibLine
  import opened Occurrences
  import opened FieldScanner
  import opened FieldChecks

  /** A braced value and what follows it on its line. */
  function Braced(value: string, tail: string): string {
    "{" + value + "}" + tail
  }

  /** A header `@t{k,` with a brace-free key opens an entry under k, declares no field and
      opens one brace. */
  lemma ClassifyHeader(t: string, k: string)
    requires TypeName(t) && PlainKey(k) && Lower(t) != "comment" && '{' !in k && '}' !in k
    ensures Classify(HeaderText(t, k, "")) == LineInfo(true, Some(k), None, 1)
  {
    HeaderLine(t, k, "");
    HeaderWithoutField(t, k);
    HeaderBalance(t, k);
  }

  /** A line `indent name = {value}tail`, indented or not, with no brace in the value or the
      tail, declares `name` in lower case and balances its braces. */
  lemma ClassifyField(indent: string, name: string, value: string, tail: string)
    requires forall i :: 0 <= i < |indent| ==> IsSpace(indent[i])
    requires TypeName(name)
    requires '{' !in value && '}' !in value && '{' !in tail && '}' !in tail
    ensures Classify(FieldText(indent, name, Braced(value, tail))) == LineInfo(false, None, Some(Lower(name)), 0)
  {
    DeclaredFieldText(indent, name, Braced(value, tail));
    FieldBalanced(indent, name, value, tail);
  }

  /** Such a line opens and closes one brace. */
  lemma FieldBalanced(indent: string, name: string, value: string, tail: string)
    requires forall i :: 0 <= i < |indent| ==> IsSpace(indent[i])
    requires TypeName(name)
    requires '{' !in value && '}' !in value && '{' !in tail && '}' !in tail
    ensures BraceDelta(FieldText(indent, name, Braced(value, tail))) == 0
  {
    var pre := indent + name + " = ";
    assert FieldText(indent, name, Braced(value, tail)) == pre + "{" + value + "}" + tail;
    forall i | 0 <= i < |pre| ensures pre[i] != '{' && pre[i] != '}' {
      if i < |indent| {
        assert pre[i] == indent[i];
      } else if i < |indent| + |name| {
        assert pre[i] == name[i - |indent|];
      }
    }
    Balanced(pre, value, tail);
  }

  /** The closing line `}` closes one brace and declares nothing. */
  lemma ClassifyClose()
    ensures Classify("}") == LineInfo(false, None, None, -1)
  {
    assert !IsHeader("}");
    assert SkipSpaces("}", 0) == 0 && WordRun("}", 0) == 0;
  }

  /** Classified lines that are a header with a key, one field per line and a closing brace
      are the one-field-per-line entry. */
  lemma FlatShape(infos: seq<LineInfo>, key: string, names: seq<string>)
    requires |infos| == |names| + 2
    requires infos[0] == LineInfo(true, Some(key), None, 1)
    requires forall i :: 0 <= i < |names| ==> infos[i + 1] == LineInfo(false, None, Some(names[i]), 0)
    requires infos[|infos| - 1] == LineInfo(false, None, None, -1)
    ensures infos == FlatEntry(key, names)
  {
    var head, body, close := LineInfo(true, Some(key), None, 1), FieldLines(names), LineInfo(false, None, None, -1);
    var flat := [head] + body + [close];
    forall j | 0 <= j < |infos| ensures infos[j] == flat[j] {
      if j == 0 {
        assert flat[j] == head;
      } else if j <= |names| {
        assert flat[j] == body[j - 1];
        FieldLinesAt(names, j - 1);
      } else {
        assert flat[j] == close;
      }
    }
  }

  /** Line j is a header `@t{k,`: it is classified as opening an entry under k. */
  lemma HeaderLineAt(lines: seq<string>, j: nat, t: string, k: string)
    requires j < |lines| && lines[j] == HeaderText(t, k, "")
    requires TypeName(t) && PlainKey(k) && Lower(t) != "comment" && '{' !in k && '}' !in k
    ensures Infos(lines)[j] == LineInfo(true, Some(k), None, 1)
  {
    InfosAt(lines, j);
    ClassifyHeader(t, k);
  }

  /** Line j is an unindented field line `name = {value}tail` with a lower-case name. */
  lemma FieldLineAt(lines: seq<string>, j: nat, name: string, value: string, tail: string)
    requires j < |lines| && lines[j] == FieldText("", name, Braced(value, tail))
    requires TypeName(name) && Lower(name) == name
    requires '{' !in value && '}' !in value && '{' !in tail && '}' !in tail
    ensures Infos(lines)[j] == LineInfo(false, None, Some(name), 0)
  {
    InfosAt(lines, j);
    ClassifyField("", name, value, tail);
  }

  /** Line j is a closing brace. */
  lemma CloseLineAt(lines: seq<string>, j: nat)
    requires j < |lines| && lines[j] == "}"
    ensures Infos(lines)[j] == LineInfo(false, None, None, -1)
  {
    InfosAt(lines, j);
    ClassifyClose();
  }

  /** A word has no newline. */
  lemma WordWithoutNewline(w: string)
    requires TypeName(w)
    ensures '\n' !in w
  {
    forall i | 0 <= i < |w| ensures w[i] != '\n' {
      assert IsWordChar(w[i]);
    }
  }

  lemma HeaderWithoutNewline(t: string, k: string)
    requires TypeName(t) && '\n' !in k
    ensures '\n' !in HeaderText(t, k, "")
  {
    WordWithoutNewline(t);
  }

  lemma FieldWithoutNewline(name: string, value: string, tail: string)
    requires TypeName(name) && '\n' !in value && '\n' !in tail
    ensures '\n' !in FieldText("", name, Braced(value, tail))
  {
    WordWithoutNewline(name);
  }

  /** Lines made of a header, one unindented `name = {value}tail` declaration per line and a
      closing brace classify as the one-field-per-line entry of those names. */
  lemma FlatText(lines: seq<string>, t: string, k: string, names: seq<string>, values: seq<string>, tails: seq<string>)
    requires |values| == |names| && |tails| == |names| && |lines| == |names| + 2
    requires TypeName(t) && PlainKey(k) && Lower(t) != "comment" && '{' !in k && '}' !in k
    requires lines[0] == HeaderText(t, k, "") && lines[|lines| - 1] == "}"
    requires forall i :: 0 <= i < |names| ==> lines[i + 1] == FieldText("", names[i], Braced(values[i], tails[i]))
    requires forall i :: 0 <= i < |names| ==> TypeName(names[i]) && Lower(names[i]) == names[i]
    requires forall i :: 0 <= i < |names| ==> '{' !in values[i] && '}' !in values[i] && '{' !in tails[i] && '}' !in tails[i]
    ensures Infos(lines) == FlatEntry(k, names)
  {
    HeaderLineAt(lines, 0, t, k);
    CloseLineAt(lines, |lines| - 1);
    forall i | 0 <= i < |names| ensures Infos(lines)[i + 1] == LineInfo(false, None, Some(names[i]), 0) {
      FieldLineAt(lines, i + 1, names[i], values[i], tails[i]);
    }
    FlatShape(Infos(lines), k, names);
  }

  /** The text of an entry whose fields start at column 0 and whose last field, `note`,
      repeats the one before it. */
  function UnindentedLines(): seq<string> {
    [ HeaderText("article", "test2023", ""),
      FieldText("", "author", Braced("Test, Author", ",")),
      FieldText("", "title", Braced("Test", ",")),
      FieldText("", "journal", Braced("J", ",")),
      FieldText("", "year", Braced("2023", ",")),
      FieldText("", "note", Braced("First", ",")),
      FieldText("", "note", Braced("Second", "")),
      "}" ]
  }

  /** The different field names of that entry, in the order of their first declarations. */
  function UnindentedNames(): seq<string> {
    ["author", "title", "journal", "year", "note"]
  }

  /** Those names are different from one another, and the last is `note`. */
  lemma UnindentedNamesDistinct()
    ensures forall p, q :: 0 <= p < q < |UnindentedNames()| ==> UnindentedNames()[p] != UnindentedNames()[q]
    ensures UnindentedNames()[4] == "note"
  {
  }

  /** Splitting the joined text gives its lines back. */
  lemma UnindentedSplit()
    ensures SplitLines(JoinLines(UnindentedLines())) == UnindentedLines()
  {
    HeaderWithoutNewline("article", "test2023");
    FieldWithoutNewline("author", "Test, Author", ",");
    FieldWithoutNewline("title", "Test", ",");
    FieldWithoutNewline("journal", "J", ",");
    FieldWithoutNewline("year", "2023", ",");
    FieldWithoutNewline("note", "First", ",");
    FieldWithoutNewline("note", "Second", "");
    SplitJoin(UnindentedLines());
  }

  /** The field names as declared, line by line, with their values and what follows them. */
  function UnindentedFields(): seq<string> {
    UnindentedNames() + [UnindentedNames()[4]]
  }

  function UnindentedValues(): seq<string> {
    ["Test, Author", "Test", "J", "2023", "First", "Second"]
  }

  function UnindentedTails(): seq<string> {
    [",", ",", ",", ",", ",", ""]
  }

  /** Line by line, the text is a header, the field declarations and a closing brace. */
  lemma UnindentedLayout()
    ensures |UnindentedLines()| == |UnindentedFields()| + 2
    ensures |UnindentedValues()| == |UnindentedFields()| && |UnindentedTails()| == |UnindentedFields()|
    ensures UnindentedLines()[0] == HeaderText("article", "test2023", "")
    ensures UnindentedLines()[7] == "}"
    ensures forall i :: 0 <= i < |UnindentedFields()| ==>
              UnindentedLines()[i + 1] == FieldText("", UnindentedFields()[i], Braced(UnindentedValues()[i], UnindentedTails()[i]))
  {
  }

  /** The names are lower-case words, and no value or tail holds a brace. */
  lemma UnindentedParts()
    ensures forall i :: 0 <= i < |UnindentedFields()| ==> TypeName(UnindentedFields()[i]) && Lower(UnindentedFields()[i]) == UnindentedFields()[i]
    ensures forall i :: 0 <= i < |UnindentedValues()| ==> '{' !in UnindentedValues()[i] && '}' !in UnindentedValues()[i]
    ensures forall i :: 0 <= i < |UnindentedTails()| ==> '{' !in UnindentedTails()[i] && '}' !in UnindentedTails()[i]
  {
  }

  /** The lines classify as a header, six field lines and a closing brace. */
  lemma UnindentedInfos()
    ensures Infos(UnindentedLines()) == FlatEntry("test2023", UnindentedFields())
  {
    assert Lower("article")[0] == 'a';
    UnindentedLayout();
    UnindentedParts();
    FlatText(UnindentedLines(), "article", "test2023", UnindentedFields(), UnindentedValues(), UnindentedTails());
  }

  /** Lines classified as a one-field-per-line entry whose last field repeats the i-th of
      otherwise different names get one diagnostic, for that field. */
  lemma RepeatedLastLine(lines: seq<string>, key: string, names: seq<string>, i: nat)
    requires forall p, q :: 0 <= p < q < |names| ==> names[p] != names[q]
    requires i < |names|
    requires Infos(lines) == FlatEntry(key, names + [names[i]])
    ensures DuplicateFieldReport(lines) == [DuplicateField(key, names[i], i + 2, |names| + 2)]
  {
    RepeatLastReported(key, names, i);
  }

  /** Unindented field declarations are read like indented ones: the repeated `note` is
      reported once, under the entry's key, with the lines of both declarations. */
  lemma UnindentedFieldsDetected()
    ensures DuplicateFieldReport(SplitLines(JoinLines(UnindentedLines())))
            == [DuplicateField("test2023", "note", 6, 7)]
  {
    UnindentedNamesDistinct();
    UnindentedSplit();
    UnindentedInfos();
    assert UnindentedFields() == UnindentedNames() + [UnindentedNames()[4]];
    RepeatedLastLine(UnindentedLines(), "test2023", UnindentedNames(), 4);
  }
}
